/** Single small steps of StopProtocol spelled out, and the monitor's small steps against a whole pass:
    when nobody interferes, its steps alone treat every runner of the snapshot as the single step does. */
module MonitorEquivalence {
  import opened Wrappers
  import opened Registry
  import opened PluginsManager
  import opened StopProtocol

  /** stop_plugin takes the early return exactly for DEAD, STOPPED and STOPPING, and leaves out marking
      exactly for a status that cannot be determined. Looking changes nothing else. */
  lemma EarlyReturnExactly(s: State, c: nat)
    requires c < |s.stops| && s.stops[c].target < |s.runners| && s.stops[c].point == AtStart
    ensures StopStep(s, c, false).Some?
    ensures var record, t := s.runners[s.stops[c].target].record, StopStep(s, c, false).value;
            && c < |t.stops| && t == s.(stops := t.stops)
            && (t.stops[c].point == AtFinally(true) <==>
                  record in s.statuses && s.statuses[record] in {DEAD, STOPPED, STOPPING})
            && (t.stops[c].point == AtFlag <==> record !in s.statuses || s.statuses[record] == UNKNOWN)
            && (t.stops[c].point == AtMark <==>
                  record in s.statuses
                  && s.statuses[record] in {INITIALIZING, STARTING, RUNNING, PAUSED, UNRESPONSIVE})
  {
  }

  /** start_plugin in a single step, status by status. */
  lemma StartTable(s: State, r: nat)
    requires r < |s.runners| && DistinctRegistry(s, s.registry)
    ensures var runner, (t, ok) := s.runners[r], Start(s, r);
            var status := if runner.record in s.statuses then s.statuses[runner.record] else UNKNOWN;
            && (status in {RUNNING, STARTING} ==> ok && t == s)
            && (status in {PAUSED, UNRESPONSIVE, STOPPING, UNKNOWN} ==> !ok && t == s)
            && (status == INITIALIZING ==>
                  && ok == (runner.thread == Fresh)
                  && t == s.(statuses := s.statuses[runner.record := STARTING],
                             runners := if ok then s.runners[r := runner.(thread := Working)] else s.runners))
            && (status in {DEAD, STOPPED} ==>
                  && ok && t.statuses == s.statuses[runner.record := STARTING]
                  && t.runners == s.runners + [RunnerState(runner.name, runner.record, Unlaunched, false, Working)]
                  && t == s.(statuses := t.statuses, runners := t.runners, registry := t.registry)
                  && forall q :: q in t.registry <==>
                       q == |s.runners| || (q in s.registry && s.runners[q].name != runner.name))
  {
    WithoutKeepsDistinct(s, s.registry, s.runners[r].name);
    forall q | q in s.registry ensures q < |s.runners| {
      var i :| 0 <= i < |s.registry| && s.registry[i] == q;
    }
    WithoutMeaning(s, s.registry, s.runners[r].name);
  }

  lemma {:induction false} WithoutMeaning(s: State, registry: seq<nat>, name: string)
    requires DistinctRegistry(s, registry)
    ensures forall q :: q in Without(s, registry, name) <==>
              q in registry && (q < |s.runners| ==> s.runners[q].name != name)
  {
    if registry != [] {
      DistinctRest(s, registry);
      WithoutMeaning(s, registry[1..], name);
      assert registry == [registry[0]] + registry[1..];
      assert forall q | q in registry[1..] ::
          exists i :: 0 <= i < |registry[1..]| && registry[1..][i] == q && registry[i + 1] == q;
    }
  }

  // ----- the monitor alone -----

  /** A step of the monitor, or of a call of stop_plugin that it has made meanwhile. */
  predicate OwnStep(calls: nat, a: Action) {
    a == StepMonitor || (a.StepStop? && a.c >= calls && !a.raises)
  }

  predicate OwnSteps(calls: nat, actions: seq<Action>) {
    forall i | 0 <= i < |actions| :: OwnStep(calls, actions[i])
  }

  lemma Take(s: State, calls: nat, first: seq<Action>, t: State, a: Action) returns (actions: seq<Action>, u: State)
    requires OwnSteps(calls, first) && Exec(s, first) == Some(t) && OwnStep(calls, a) && Apply(t, a).Some?
    ensures OwnSteps(calls, actions) && Exec(s, actions) == Some(u) && u == Apply(t, a).value
  {
    u := Apply(t, a).value;
    actions := first + [a];
    ExecSnoc(s, first, a, u);
  }

  /** What the monitor does about one runner of its snapshot, apart from the registry. */
  ghost predicate Inspected(s: State, r: nat, t: State)
    requires r < |s.runners|
  {
    var runner := s.runners[r];
    var crashed := runner.process.Gone? && !runner.stopFlag && runner.record in s.statuses;
    && (crashed && s.statuses[runner.record] == RUNNING ==>
          && t.statuses == s.statuses[runner.record := STARTING]
          && t.runners == s.runners + [RunnerState(runner.name, runner.record, Unlaunched, false, Working)]
          && forall q :: q in t.registry <==>
               q == |s.runners| || (q in s.registry && q < |s.runners| && s.runners[q].name != runner.name))
    && (crashed && s.statuses[runner.record] == STARTING ==>
          t.statuses == s.statuses[runner.record := DEAD] && t.runners == s.runners && t.registry == s.registry)
    && (!crashed || s.statuses[runner.record] !in {RUNNING, STARTING} ==>
          t.statuses == s.statuses && t.runners == s.runners && t.registry == s.registry)
  }

  /** The monitor's steps for one runner of the snapshot. */
  lemma InspectAlone(s: State, r: nat, rest: seq<nat>) returns (actions: seq<Action>, t: State)
    requires s.monitor == Looking([r] + rest) && r < |s.runners| && DistinctRegistry(s, s.registry)
    ensures OwnSteps(|s.stops|, actions) && Exec(s, actions) == Some(t)
    ensures t.monitor == Looking(rest) && Inspected(s, r, t)
  {
    assert ([r] + rest)[1..] == rest;
    var runner := s.runners[r];
    actions, t := Take(s, |s.stops|, [], s, StepMonitor);
    if t.monitor.Committed? {
      actions, t := Take(s, |s.stops|, actions, t, StepMonitor);
      if t.monitor.SawRunning? {
        actions, t := RestartAlone(s, actions, t, r, rest);
      } else {
        actions, t := Take(s, |s.stops|, actions, t, StepMonitor);
        if t.monitor.SawStarting? {
          actions, t := Take(s, |s.stops|, actions, t, StepMonitor);
        }
      }
    }
  }

  lemma RestartAlone(s: State, first: seq<Action>, now: State, r: nat, rest: seq<nat>)
    returns (actions: seq<Action>, t: State)
    requires r < |s.runners| && DistinctRegistry(s, s.registry)
    requires OwnSteps(|s.stops|, first) && Exec(s, first) == Some(now) && now == s.(monitor := SawRunning(r, rest))
    requires s.runners[r].process.Gone? && !s.runners[r].stopFlag
    requires s.runners[r].record in s.statuses && s.statuses[s.runners[r].record] == RUNNING
    ensures OwnSteps(|s.stops|, actions) && Exec(s, actions) == Some(t)
    ensures t.monitor == Looking(rest) && Inspected(s, r, t)
  {
    var c, runner := |s.stops|, s.runners[r];
    actions, t := Take(s, c, first, now, StepMonitor);
    EarlyReturnExactly(t, c);
    actions, t := Take(s, c, actions, t, StepStop(c, false));
    actions, t := Take(s, c, actions, t, StepStop(c, false));
    assert t.stops[c].point == Returned && t.runners == s.runners && t.registry == s.registry;
    assert t.statuses == s.statuses[runner.record := DEAD] && t.monitor == Restarting(r, c, rest);
    StartTable(t, r);
    actions, t := Take(s, c, actions, t, StepMonitor);
    assert s.statuses[runner.record := DEAD][runner.record := STARTING] == s.statuses[runner.record := STARTING];
  }

  // ----- a whole pass -----

  /** A registered runner has this name and this record. */
  predicate Serves(s: State, name: string, record: nat) {
    exists q :: q in s.registry && q < |s.runners| && s.runners[q].name == name && s.runners[q].record == record
  }

  predicate DistinctRecords(s: State, rest: seq<nat>) {
    && (forall i | 0 <= i < |rest| :: rest[i] < |s.runners|)
    && forall i, j | 0 <= i < j < |rest| :: s.runners[rest[i]].record != s.runners[rest[j]].record
  }

  /** What a pass leaves of the statuses, with process, flag and status as they were at its beginning. */
  ghost predicate StatusesAfter(s: State, rest: seq<nat>, t: State)
    requires forall i | 0 <= i < |rest| :: rest[i] < |s.runners|
  {
    && t.statuses.Keys == s.statuses.Keys
    && (forall i | 0 <= i < |rest| && s.runners[rest[i]].record in s.statuses ::
          var runner := s.runners[rest[i]];
          t.statuses[runner.record] ==
            if runner.process.Gone? && !runner.stopFlag && s.statuses[runner.record] == RUNNING then STARTING
            else if runner.process.Gone? && !runner.stopFlag && s.statuses[runner.record] == STARTING then DEAD
            else s.statuses[runner.record])
    && (forall record | record in s.statuses
            && forall i | 0 <= i < |rest| :: s.runners[rest[i]].record != record ::
          t.statuses[record] == s.statuses[record])
  }

  lemma StatusesCompose(s: State, rest: seq<nat>, t: State, u: State)
    requires rest != [] && DistinctRecords(s, rest) && Inspected(s, rest[0], t)
    requires |s.runners| <= |t.runners| && t.runners[..|s.runners|] == s.runners
    requires StatusesAfter(t, rest[1..], u)
    ensures StatusesAfter(s, rest, u)
  {
    var tail := rest[1..];
    assert forall i | 0 <= i < |tail| :: tail[i] == rest[i + 1];
    assert forall q | 0 <= q < |s.runners| :: t.runners[q] == t.runners[..|s.runners|][q];
    forall i | 0 <= i < |rest| && s.runners[rest[i]].record in s.statuses
      ensures var runner := s.runners[rest[i]];
        u.statuses[runner.record] ==
          if runner.process.Gone? && !runner.stopFlag && s.statuses[runner.record] == RUNNING then STARTING
          else if runner.process.Gone? && !runner.stopFlag && s.statuses[runner.record] == STARTING then DEAD
          else s.statuses[runner.record]
    {
      if i > 0 {
        assert tail[i - 1] == rest[i];
        assert s.runners[rest[0]].record != s.runners[rest[i]].record;
      }
    }
    forall record | record in s.statuses && forall i | 0 <= i < |rest| :: s.runners[rest[i]].record != record
      ensures u.statuses[record] == s.statuses[record]
    {
      assert s.runners[rest[0]].record != record;
    }
  }

  lemma ServesStill(s: State, r: nat, t: State, name: string, record: nat)
    requires DistinctRegistry(s, s.registry) && r < |s.runners| && r in s.registry
    requires Inspected(s, r, t) && Serves(s, name, record)
    ensures Serves(t, name, record)
  {
    var q :| q in s.registry && q < |s.runners| && s.runners[q].name == name && s.runners[q].record == record;
    if t.registry != s.registry && s.runners[q].name == s.runners[r].name {
      var i :| 0 <= i < |s.registry| && s.registry[i] == q;
      var j :| 0 <= j < |s.registry| && s.registry[j] == r;
      assert i == j;
      assert |s.runners| in t.registry;
    } else {
      assert q in t.registry && t.runners[q] == s.runners[q];
    }
  }

  lemma RestIsListed(s: State, rest: seq<nat>, t: State)
    requires DistinctRegistry(s, rest) && rest != [] && Inspected(s, rest[0], t)
    requires forall q | q in rest :: q in s.registry
    ensures |s.runners| <= |t.runners| && t.runners[..|s.runners|] == s.runners
    ensures DistinctRegistry(t, rest[1..]) && forall q | q in rest[1..] :: q in t.registry
  {
    DistinctRest(s, rest);
    forall q | q in rest[1..] ensures q in t.registry {
      var i :| 0 <= i < |rest[1..]| && rest[1..][i] == q;
      assert rest[i + 1] == q;
      assert q in rest && s.runners[rest[0]].name != s.runners[rest[i + 1]].name;
    }
  }

  lemma {:induction false} CallsGrow(s: State, actions: seq<Action>)
    ensures Exec(s, actions).Some? ==> |s.stops| <= |Exec(s, actions).value.stops|
    decreases |actions|
  {
    if actions != [] && Apply(s, actions[0]).Some? {
      if actions[0].CallStart? || (actions[0].StepMonitor? && s.monitor.Restarting?) {
        StartGrows(s, if actions[0].CallStart? then actions[0].r else s.monitor.r);
      }
      CallsGrow(Apply(s, actions[0]).value, actions[1..]);
    }
  }

  /** The rest of the snapshot can be inspected: it is registered, with names and records of its own. */
  ghost predicate Ready(s: State, rest: seq<nat>) {
    && s.monitor == Looking(rest)
    && DistinctRegistry(s, s.registry) && DistinctRegistry(s, rest) && DistinctRecords(s, rest)
    && forall q | q in rest :: q in s.registry
  }

  lemma FirstAlone(s: State, rest: seq<nat>) returns (actions: seq<Action>, t: State)
    requires Ready(s, rest) && rest != []
    ensures OwnSteps(|s.stops|, actions) && Exec(s, actions) == Some(t) && |s.stops| <= |t.stops|
    ensures Ready(t, rest[1..]) && Inspected(s, rest[0], t)
    ensures |s.runners| <= |t.runners| && t.runners[..|s.runners|] == s.runners
    ensures forall name, record | Serves(s, name, record) :: Serves(t, name, record)
  {
    assert [rest[0]] + rest[1..] == rest;
    actions, t := InspectAlone(s, rest[0], rest[1..]);
    CallsGrow(s, actions);
    ExecKeepsDistinct(s, actions);
    RestIsListed(s, rest, t);
    assert DistinctRecords(t, rest[1..]);
    forall name, record | Serves(s, name, record) ensures Serves(t, name, record) {
      ServesStill(s, rest[0], t, name, record);
    }
  }

  lemma OwnStepsConcat(s: State, first: seq<Action>, t: State, second: seq<Action>)
    requires Exec(s, first) == Some(t) && |s.stops| <= |t.stops|
    requires OwnSteps(|s.stops|, first) && OwnSteps(|t.stops|, second)
    ensures OwnSteps(|s.stops|, first + second) && Exec(s, first + second) == Exec(t, second)
  {
    ExecConcat(s, first, second);
  }

  lemma {:induction false} SnapshotAlone(s: State, rest: seq<nat>) returns (actions: seq<Action>, t: State)
    requires Ready(s, rest)
    ensures OwnSteps(|s.stops|, actions) && Exec(s, actions) == Some(t) && t.monitor == Looking([])
    ensures |s.runners| <= |t.runners| && t.runners[..|s.runners|] == s.runners
    ensures StatusesAfter(s, rest, t)
    ensures forall name, record | Serves(s, name, record) :: Serves(t, name, record)
    decreases |rest|
  {
    if rest == [] {
      actions, t := [], s;
    } else {
      var first, u := FirstAlone(s, rest);
      var second, v := SnapshotAlone(u, rest[1..]);
      OwnStepsConcat(s, first, u, second);
      actions, t := first + second, v;
      StatusesCompose(s, rest, u, t);
      assert t.runners[..|s.runners|] == t.runners[..|u.runners|][..|s.runners|];
    }
  }

  /** A pass that the monitor makes without interference leaves the statuses that the single step
      leaves, keeps every old runner as it is, and keeps every name and record served. */
  lemma PassAlone(s: State) returns (actions: seq<Action>, t: State)
    requires s.monitor == Idle && DistinctRegistry(s, s.registry) && DistinctRecords(s, s.registry)
    ensures OwnSteps(|s.stops|, actions) && Exec(s, actions) == Some(t) && t.monitor == Idle
    ensures |s.runners| <= |t.runners| && t.runners[..|s.runners|] == s.runners
    ensures StatusesAfter(s, s.registry, t)
    ensures forall name, record | Serves(s, name, record) :: Serves(t, name, record)
  {
    var u := s.(monitor := Looking(s.registry));
    assert DistinctRegistry(u, u.registry);
    var rest, v := SnapshotAlone(u, s.registry);
    ExecOne(s, StepMonitor);
    ExecConcat(s, [StepMonitor], rest);
    actions, t := Take(s, |s.stops|, [StepMonitor] + rest, v, StepMonitor);
    forall name, record | Serves(s, name, record) ensures Serves(t, name, record) {
      assert Serves(u, name, record);
      assert Serves(v, name, record);
    }
  }
}

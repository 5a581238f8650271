/** Where the guarantees of the stop protocol end: when the monitor can restart a runner whose process
    has exited, and when a process outlives the call that stops it. */
module StopLimits {
  import opened Wrappers
  import opened Registry
  import opened StopProtocol

  // ----- when a restart is still possible -----

  predicate LeadsToRestart(s: State, actions: seq<Action>, r: nat) {
    Exec(s, actions).Some? && RestartsNow(Exec(s, actions).value, r)
  }

  /** The monitor has seen r exited without the flag and may find, or has found, that it was running. It
      does not look at the flag again. */
  predicate Heading(s: State, r: nat) {
    (s.monitor.Committed? || s.monitor.SawRunning? || s.monitor.Restarting?) && s.monitor.r == r
  }

  /** What is left of the snapshot of the pass. */
  function Snapshot(m: MonitorPoint): seq<nat> {
    if m.Idle? || m.Ended? then [] else m.rest
  }

  /** The process has exited or can still come to exist, so that it can exit. */
  predicate CanExit(runner: RunnerState) {
    runner.process.Unlaunched? ==> runner.thread != Thread.Finished
  }

  /** A restart of r is possible: the monitor is heading for it, or it is not flagged, the monitor can
      come across it, and its process can exit. */
  predicate Restartable(s: State, r: nat)
    requires r < |s.runners|
  {
    || Heading(s, r)
    || (!s.runners[r].stopFlag && (r in s.registry || r in Snapshot(s.monitor)) && CanExit(s.runners[r]))
  }

  // ----- it cannot become possible again -----

  lemma {:induction false} WithoutHas(s: State, registry: seq<nat>, name: string, r: nat)
    requires r !in registry
    ensures r !in Without(s, registry, name)
  {
    if registry != [] {
      WithoutHas(s, registry[1..], name, r);
    }
  }

  lemma StartStaysImpossible(s: State, q: nat, r: nat)
    requires q < |s.runners| && r < |s.runners|
    ensures var t := Start(s, q).0;
            && (s.runners[r].stopFlag ==> t.runners[r].stopFlag)
            && (r !in s.registry ==> r !in t.registry)
            && (!CanExit(s.runners[r]) ==> !CanExit(t.runners[r]))
            && t.monitor == s.monitor
  {
    StartGrows(s, q);
    if r !in s.registry {
      WithoutHas(s, s.registry, s.runners[q].name, r);
    }
  }

  lemma MonitorKeepsImpossible(s: State, r: nat)
    requires r < |s.runners| && !Restartable(s, r) && MonitorStep(s).Some?
    ensures r < |MonitorStep(s).value.runners| && !Restartable(MonitorStep(s).value, r)
  {
    if s.monitor.Restarting? {
      StartStaysImpossible(s, s.monitor.r, r);
      StartGrows(s, s.monitor.r);
    }
  }

  lemma ApplyKeepsImpossible(s: State, a: Action, r: nat)
    requires r < |s.runners| && !Restartable(s, r) && Apply(s, a).Some?
    ensures r < |Apply(s, a).value.runners| && !Restartable(Apply(s, a).value, r)
  {
    ApplyGrows(s, a);
    match a {
      case StepMonitor => MonitorKeepsImpossible(s, r);
      case CallStart(q) => StartStaysImpossible(s, q, r);
      case Unregister(name) =>
        if r !in s.registry {
          WithoutHas(s, s.registry, name, r);
        }
      case _ =>
    }
  }

  lemma {:induction false} ExecKeepsImpossible(s: State, actions: seq<Action>, r: nat)
    requires r < |s.runners| && !Restartable(s, r)
    ensures !LeadsToRestart(s, actions, r)
    decreases |actions|
  {
    if actions != [] && Apply(s, actions[0]).Some? {
      ApplyKeepsImpossible(s, actions[0], r);
      ExecKeepsImpossible(Apply(s, actions[0]).value, actions[1..], r);
      assert Exec(s, actions) == Exec(Apply(s, actions[0]).value, actions[1..]);
    }
  }

  // ----- the monitor can be brought to look for more -----

  /** t is s with the monitor elsewhere and perhaps other statuses and calls, but with the same runner r
      and the same registry. */
  predicate SameFor(s: State, t: State, r: nat) {
    r < |s.runners| && r < |t.runners| && t.runners[r] == s.runners[r] && t.registry == s.registry
  }

  lemma TwoSteps(s: State, a: Action, t: State, b: Action, u: State) returns (actions: seq<Action>)
    requires Apply(s, a) == Some(t) && Apply(t, b) == Some(u)
    ensures actions == [a] + [b] && Exec(s, actions) == Some(u)
  {
    actions := [a] + [b];
    ExecOne(s, a);
    ExecSnoc(s, [a], b, u);
  }

  /** The monitor goes on without the runner it has committed itself to. */
  lemma SkipCommitted(s: State, r: nat) returns (actions: seq<Action>, t: State)
    requires s.monitor.Committed? && s.monitor.r < |s.runners| && r < |s.runners|
    ensures Exec(s, actions) == Some(t) && SameFor(s, t, r) && t.monitor == Looking(s.monitor.rest)
  {
    var record := s.runners[s.monitor.r].record;
    var s1 := s.(statuses := s.statuses[record := DEAD]);
    var s2 := s1.(monitor := SawOther(s.monitor.r, s.monitor.rest));
    t := s1.(monitor := Looking(s.monitor.rest));
    var first := TwoSteps(s, Write(record, DEAD), s1, StepMonitor, s2);
    ExecSnoc(s, first, StepMonitor, t);
    actions := first + [StepMonitor];
  }

  lemma SkipOther(s: State, r: nat) returns (actions: seq<Action>, t: State)
    requires s.monitor.SawOther? && s.monitor.r < |s.runners| && r < |s.runners|
    ensures Exec(s, actions) == Some(t) && SameFor(s, t, r) && t.monitor == Looking(s.monitor.rest)
  {
    var record := s.runners[s.monitor.r].record;
    var s1 := s.(statuses := s.statuses[record := DEAD]);
    t := s1.(monitor := Looking(s.monitor.rest));
    actions := TwoSteps(s, Write(record, DEAD), s1, StepMonitor, t);
  }

  /** A call of stop_plugin is brought to its end by exceptions. */
  lemma EndCall(s: State, c: nat, r: nat) returns (actions: seq<Action>, t: State)
    requires c < |s.stops| && s.stops[c].target < |s.runners| && r < |s.runners| && r != s.stops[c].target
    ensures Exec(s, actions) == Some(t) && SameFor(s, t, r) && t.monitor == s.monitor
    ensures |t.stops| == |s.stops| && t.stops[c].point == Returned
  {
    var point := s.stops[c].point;
    if point == Returned {
      actions, t := [], s;
    } else if point == AtDead {
      actions, t := [StepStop(c, false)], StopStep(s, c, false).value;
      ExecOne(s, StepStop(c, false));
    } else if point.AtFinally? {
      var s1 := StopStep(s, c, false).value;
      ExecOne(s, StepStop(c, false));
      var rest;
      rest, t := EndDead(s1, c, r);
      ExecConcat(s, [StepStop(c, false)], rest);
      actions := [StepStop(c, false)] + rest;
    } else {
      var s1 := StopStep(s, c, true).value;
      var s2 := StopStep(s1, c, false).value;
      var first := TwoSteps(s, StepStop(c, true), s1, StepStop(c, false), s2);
      var rest;
      rest, t := EndDead(s2, c, r);
      ExecConcat(s, first, rest);
      actions := first + rest;
    }
  }

  lemma EndDead(s: State, c: nat, r: nat) returns (actions: seq<Action>, t: State)
    requires c < |s.stops| && s.stops[c].target < |s.runners| && r < |s.runners| && r != s.stops[c].target
    requires s.stops[c].point in {AtDead, Returned}
    ensures Exec(s, actions) == Some(t) && SameFor(s, t, r) && t.monitor == s.monitor
    ensures |t.stops| == |s.stops| && t.stops[c].point == Returned
  {
    if s.stops[c].point == Returned {
      actions, t := [], s;
    } else {
      actions, t := [StepStop(c, false)], StopStep(s, c, false).value;
      ExecOne(s, StepStop(c, false));
    }
  }

  /** The restart of another runner comes to nothing, because it looks as if it were running again. */
  lemma SkipRestarting(s: State, r: nat) returns (actions: seq<Action>, t: State)
    requires Inv(s) && s.monitor.Restarting? && r < |s.runners| && r != s.monitor.r
    ensures Exec(s, actions) == Some(t) && SameFor(s, t, r) && t.monitor == Looking(s.monitor.rest)
  {
    var first, s1 := EndCall(s, s.monitor.call, r);
    ExecGrows(s, first);
    var record := s1.runners[s.monitor.r].record;
    var s2 := s1.(statuses := s1.statuses[record := RUNNING]);
    t := s2.(monitor := Looking(s.monitor.rest));
    assert Start(s2, s.monitor.r) == (s2, true);
    var second := TwoSteps(s1, Write(record, RUNNING), s2, StepMonitor, t);
    ExecConcat(s, first, second);
    actions := first + second;
  }

  lemma SkipRunning(s: State, r: nat) returns (actions: seq<Action>, t: State)
    requires Inv(s) && s.monitor.SawRunning? && r < |s.runners| && r != s.monitor.r
    ensures Exec(s, actions) == Some(t) && SameFor(s, t, r) && t.monitor == Looking(s.monitor.rest)
  {
    var s1 := MonitorStep(s).value;
    ExecOne(s, StepMonitor);
    ApplyKeepsInv(s, StepMonitor);
    var rest;
    rest, t := SkipRestarting(s1, r);
    ExecConcat(s, [StepMonitor], rest);
    actions := [StepMonitor] + rest;
  }

  /** Whatever the monitor is about to do about another runner, it can go on to the rest of its pass. */
  lemma GoOn(s: State, r: nat) returns (actions: seq<Action>, t: State)
    requires Inv(s) && r < |s.runners| && !Heading(s, r) && !s.monitor.Idle? && !s.monitor.Ended?
    ensures Exec(s, actions) == Some(t) && SameFor(s, t, r) && t.monitor == Looking(Snapshot(s.monitor))
  {
    match s.monitor {
      case Looking(_) => actions, t := [], s;
      case Committed(_, _) => actions, t := SkipCommitted(s, r);
      case SawRunning(_, _) => actions, t := SkipRunning(s, r);
      case SawOther(_, _) => actions, t := SkipOther(s, r);
      case SawStarting(_, rest) =>
        actions, t := [StepMonitor], MonitorStep(s).value;
        ExecOne(s, StepMonitor);
      case Restarting(_, _, _) => actions, t := SkipRestarting(s, r);
    }
  }

  /** The monitor passes over the first runner of its snapshot, which may need its status changed. */
  lemma PassOver(s: State, rest: seq<nat>) returns (actions: seq<Action>, t: State)
    requires s.monitor == Looking(rest) && rest != []
    ensures Exec(s, actions) == Some(t) && t.monitor == Looking(rest[1..]) && t.runners == s.runners
        && t.registry == s.registry
  {
    var q := rest[0];
    if q < |s.runners| && s.runners[q].process.Gone? && !s.runners[q].stopFlag {
      var s1 := s.(monitor := Committed(q, rest[1..]));
      ExecOne(s, StepMonitor);
      var record := s.runners[q].record;
      var s2 := s1.(statuses := s.statuses[record := DEAD]);
      var s3 := s2.(monitor := SawOther(q, rest[1..]));
      t := s2.(monitor := Looking(rest[1..]));
      var second := TwoSteps(s1, Write(record, DEAD), s2, StepMonitor, s3);
      ExecSnoc(s1, second, StepMonitor, t);
      ExecConcat(s, [StepMonitor], second + [StepMonitor]);
      actions := [StepMonitor] + (second + [StepMonitor]);
    } else {
      actions, t := [StepMonitor], s.(monitor := Looking(rest[1..]));
      ExecOne(s, StepMonitor);
    }
  }

  /** A pass ends and the next one begins. */
  lemma {:induction false} NextPass(s: State, rest: seq<nat>) returns (actions: seq<Action>, t: State)
    requires s.monitor == Looking(rest)
    ensures Exec(s, actions) == Some(t) && t.monitor == Looking(s.registry) && t.runners == s.runners
        && t.registry == s.registry
    decreases |rest|
  {
    if rest == [] {
      t := s.(monitor := Looking(s.registry));
      actions := TwoSteps(s, StepMonitor, s.(monitor := Idle), StepMonitor, t);
    } else {
      var first, s1 := PassOver(s, rest);
      var second;
      second, t := NextPass(s1, rest[1..]);
      ExecConcat(s, first, second);
      actions := first + second;
    }
  }

  /** The monitor is about to go through runners among which is r. */
  lemma ComeAcross(s: State, r: nat) returns (actions: seq<Action>, t: State)
    requires Inv(s) && r < |s.runners| && !Heading(s, r) && (r in s.registry || r in Snapshot(s.monitor))
    ensures Exec(s, actions) == Some(t) && SameFor(s, t, r) && t.monitor.Looking? && r in t.monitor.rest
  {
    if s.monitor.Idle? {
      actions, t := [StepMonitor], MonitorStep(s).value;
      ExecOne(s, StepMonitor);
    } else if s.monitor.Ended? {
      t := s.(monitor := Looking(s.registry));
      actions := TwoSteps(s, ReviveMonitor, s.(monitor := Idle), StepMonitor, t);
    } else {
      actions, t := GoOn(s, r);
      if r !in t.monitor.rest {
        var first, s1 := actions, t;
        var second;
        second, t := NextPass(s1, s1.monitor.rest);
        ExecConcat(s, first, second);
        actions := first + second;
      }
    }
  }

  // ----- and to restart r -----

  /** The monitor comes to a runner that looks as if it had stopped unexpectedly. */
  lemma {:induction false} PickFrom(s: State, r: nat, rest: seq<nat>) returns (actions: seq<Action>)
    requires s.monitor == Looking(rest) && r in rest
    requires r < |s.runners| && s.runners[r].process.Gone? && !s.runners[r].stopFlag
    ensures LeadsToRestart(s, actions, r)
    decreases |rest|
  {
    if rest[0] == r {
      var s1 := s.(monitor := Committed(r, rest[1..]));
      ExecOne(s, StepMonitor);
      var second := FinishHeading(s1, r);
      ExecConcat(s, [StepMonitor], second);
      actions := [StepMonitor] + second;
    } else {
      var first, s1 := PassOver(s, rest);
      var second := PickFrom(s1, r, rest[1..]);
      ExecConcat(s, first, second);
      actions := first + second;
    }
  }

  lemma FinishHeading(s: State, r: nat) returns (actions: seq<Action>)
    requires r < |s.runners| && Heading(s, r)
    ensures LeadsToRestart(s, actions, r)
  {
    match s.monitor {
      case Restarting(_, _, _) => actions := [];
      case SawRunning(_, _) =>
        actions := [StepMonitor];
        ExecOne(s, StepMonitor);
      case Committed(_, rest) =>
        var record := s.runners[r].record;
        var s1 := s.(statuses := s.statuses[record := RUNNING]);
        var s2 := s1.(monitor := SawRunning(r, rest));
        var first := TwoSteps(s, Write(record, RUNNING), s1, StepMonitor, s2);
        ExecSnoc(s, first, StepMonitor, MonitorStep(s2).value);
        actions := first + [StepMonitor];
    }
  }

  /** The process of r exits, after it has been launched if necessary. */
  lemma LetExit(s: State, r: nat) returns (actions: seq<Action>, t: State)
    requires r < |s.runners| && CanExit(s.runners[r])
    ensures Exec(s, actions) == Some(t) && t.registry == s.registry && t.monitor == s.monitor && t.stops == s.stops
    ensures r < |t.runners| && t.runners[r].process.Gone? && t.runners[r].stopFlag == s.runners[r].stopFlag
  {
    match s.runners[r].process {
      case Gone(_) => actions, t := [], s;
      case Living =>
        actions, t := [Exit(r)], Apply(s, Exit(r)).value;
        ExecOne(s, Exit(r));
      case Unlaunched =>
        var first, s1 := LetWork(s, r);
        var s2 := Apply(s1, Launch(r)).value;
        t := Apply(s2, Exit(r)).value;
        var second := TwoSteps(s1, Launch(r), s2, Exit(r), t);
        ExecConcat(s, first, second);
        actions := first + second;
    }
  }

  lemma LetWork(s: State, r: nat) returns (actions: seq<Action>, t: State)
    requires r < |s.runners| && s.runners[r].process.Unlaunched? && s.runners[r].thread != Thread.Finished
    ensures Exec(s, actions) == Some(t) && t.registry == s.registry && t.monitor == s.monitor && t.stops == s.stops
    ensures |t.runners| == |s.runners| && t.runners[r] == s.runners[r].(thread := Working)
  {
    if s.runners[r].thread.Working? {
      actions, t := [], s;
    } else {
      var record := s.runners[r].record;
      var s1 := s.(statuses := s.statuses[record := INITIALIZING]);
      t := Start(s1, r).0;
      actions := TwoSteps(s, Write(record, INITIALIZING), s1, CallStart(r), t);
    }
  }

  /** When a restart is possible, in every reachable state and for every runner: some continuation of the
      run, with a suitable report of its status, leads to its restart if and only if the monitor is
      already heading for it, whatever its flag says by now, or it is not flagged, the monitor can come
      across it, and its process can exit. */
  lemma RestartableExactly(s: State, r: nat)
    requires Reachable(s) && r < |s.runners|
    ensures (exists actions :: LeadsToRestart(s, actions, r)) <==> Restartable(s, r)
  {
    if !Restartable(s, r) {
      forall actions ensures !LeadsToRestart(s, actions, r) {
        ExecKeepsImpossible(s, actions, r);
      }
    } else if Heading(s, r) {
      var actions := FinishHeading(s, r);
    } else {
      ReachableInv(s);
      var first, s1 := LetExit(s, r);
      ExecKeepsInv(s, first);
      var second, s2 := ComeAcross(s1, r);
      var third := PickFrom(s2, r, s2.monitor.rest);
      ExecConcat(s1, second, third);
      ExecConcat(s, first, second + third);
      assert LeadsToRestart(s, first + (second + third), r);
    }
  }

  /** The stop flag alone does not decide: a flagged runner can be restarted exactly while the monitor is
      heading for it. */
  lemma FlaggedIsRestartableExactly(s: State, r: nat)
    requires Reachable(s) && r < |s.runners| && s.runners[r].stopFlag
    ensures (exists actions :: LeadsToRestart(s, actions, r)) <==> Heading(s, r)
  {
    RestartableExactly(s, r);
  }

  // ----- a stop that comes during a pass -----

  /** The monitor has seen that runner 0, which exited by itself, was running. */
  lemma SeenRunning(runner: RunnerState) returns (t: State)
    requires runner == RunnerState("p", 0, Gone(OnItsOwn), false, Working)
    ensures Reachable(t)
    ensures t == State([runner], [0], map[0 := RUNNING], {}, [], SawRunning(0, []))
  {
    var idle := ExitedWhileRunning(runner);
    var looking := idle.(monitor := Looking([0]));
    OneMore(idle, StepMonitor, looking);
    var committed := idle.(monitor := Committed(0, []));
    assert [0][1..] == [];
    OneMore(looking, StepMonitor, committed);
    t := idle.(monitor := SawRunning(0, []));
    OneMore(committed, StepMonitor, t);
  }

  lemma StartedOnce() returns (t: State)
    ensures Reachable(t)
    ensures t == State([RunnerState("p", 0, Unlaunched, false, Working)], [0], map[0 := STARTING], {}, [], Idle)
  {
    assert Exec(INIT, []) == Some(INIT);
    var fresh0, working := RunnerState("p", 0, Unlaunched, false, Fresh),
        RunnerState("p", 0, Unlaunched, false, Working);
    var s1 := State([fresh0], [0], map[], {}, [], Idle);
    assert [] + [fresh0] == s1.runners && [] + [0] == s1.registry && !Lists(INIT, [], "p");
    OneMore(INIT, Load("p", 0), s1);
    var s2 := State([fresh0], [0], map[0 := INITIALIZING], {}, [], Idle);
    assert s1.statuses[0 := INITIALIZING] == s2.statuses;
    OneMore(s1, Write(0, INITIALIZING), s2);
    t := State([working], [0], map[0 := STARTING], {}, [], Idle);
    assert s2.runners[0 := working] == t.runners && s2.statuses[0 := STARTING] == t.statuses;
    OneMore(s2, CallStart(0), t);
  }

  lemma ExitedWhileRunning(runner: RunnerState) returns (t: State)
    requires runner == RunnerState("p", 0, Gone(OnItsOwn), false, Working)
    ensures Reachable(t)
    ensures t == State([runner], [0], map[0 := RUNNING], {}, [], Idle)
  {
    var s3 := StartedOnce();
    var living := RunnerState("p", 0, Living, false, Working);
    var s4 := s3.(runners := [living]);
    assert s3.runners[0 := living] == s4.runners;
    OneMore(s3, Launch(0), s4);
    var s5 := s4.(statuses := map[0 := RUNNING]);
    assert s4.statuses[0 := RUNNING] == s5.statuses;
    OneMore(s4, Write(0, RUNNING), s5);
    t := s5.(runners := [runner]);
    assert s5.runners[0 := runner] == t.runners;
    OneMore(s5, Exit(0), t);
  }

  /** The race of a stop with a pass: a runner is about to be restarted although it is registered, its
      stop flag is set and `_stop` has been sent for it. */
  lemma StopRacesMonitor() returns (t: State)
    ensures Reachable(t) && RestartsNow(t, 0) && 0 in t.registry
    ensures 0 < |t.runners| && t.runners[0].stopFlag && Message(t.runners[0].name, Some(0)) in t.mail
  {
    var runner := RunnerState("p", 0, Gone(OnItsOwn), false, Working);
    var s := SeenRunning(runner);
    var s1 := s.(stops := [StopCall(0, AtStart, true)]);
    assert [] + s1.stops == s1.stops;
    OneMore(s, CallStop(0), s1);
    var s2 := s1.(stops := [StopCall(0, AtMark, true)]);
    assert s1.stops[0 := s2.stops[0]] == s2.stops;
    OneMore(s1, StepStop(0, false), s2);
    var s3 := StopStep(s2, 0, false).value;
    OneMore(s2, StepStop(0, false), s3);
    var s4 := StopStep(s3, 0, false).value;
    OneMore(s3, StepStop(0, false), s4);
    var s5 := StopStep(s4, 0, false).value;
    OneMore(s4, StepStop(0, false), s5);
    t := MonitorStep(s5).value;
    OneMore(s5, StepMonitor, t);
  }

  // ----- a process can outlive its stop exactly if it has not been launched yet -----

  predicate LeadsToLife(s: State, actions: seq<Action>, r: nat) {
    Exec(s, actions).Some? && r < |Exec(s, actions).value.runners| && Exec(s, actions).value.runners[r].process.Living?
  }

  /** The process has exited, or was not launched and no thread is about to launch it. */
  predicate Quiet(s: State, r: nat) {
    r < |s.runners| && !s.runners[r].process.Living?
        && (s.runners[r].process.Unlaunched? ==> !s.runners[r].thread.Working?)
  }

  lemma ApplyKeepsQuiet(s: State, a: Action, r: nat)
    requires Inv(s) && Quiet(s, r) && a != CallStart(r)
    ensures Apply(s, a).Some? ==> Quiet(Apply(s, a).value, r)
  {
    if a.CallStart? && a.r < |s.runners| {
      StartGrows(s, a.r);
    } else if a.StepMonitor? && s.monitor.Restarting? && s.monitor.r < |s.runners| {
      StartGrows(s, s.monitor.r);
    }
  }

  lemma {:induction false} ExecKeepsQuiet(s: State, actions: seq<Action>, r: nat)
    requires Inv(s) && Quiet(s, r) && CallStart(r) !in actions
    ensures Exec(s, actions).Some? ==> Quiet(Exec(s, actions).value, r)
    decreases |actions|
  {
    if actions != [] && Apply(s, actions[0]).Some? {
      ApplyKeepsQuiet(s, actions[0], r);
      ApplyKeepsInv(s, actions[0]);
      ExecKeepsQuiet(Apply(s, actions[0]).value, actions[1..], r);
    }
  }

  /** After the last look of stop_plugin at a runner its process does not live. Without another call of
      start_plugin for this runner, it lives in some continuation if and only if it had not been
      launched and the thread that launches it works: kill() ignores a process that is not there yet. */
  lemma ProcessOutlivesStopExactly(s: State, c: nat, t: State)
    requires Reachable(s) && c < |s.stops| && s.stops[c].point.AtFinally? && StopStep(s, c, false) == Some(t)
    ensures var r := s.stops[c].target;
            && r < |t.runners| && !t.runners[r].process.Living?
            && ((exists actions :: CallStart(r) !in actions && LeadsToLife(t, actions, r))
                <==> t.runners[r].process.Unlaunched? && t.runners[r].thread.Working?)
  {
    var r := s.stops[c].target;
    ReachableInv(s);
    ApplyKeepsInv(s, StepStop(c, false));
    if t.runners[r].process.Unlaunched? && t.runners[r].thread.Working? {
      ExecOne(t, Launch(r));
      assert LeadsToLife(t, [Launch(r)], r);
    } else {
      forall actions | CallStart(r) !in actions ensures !LeadsToLife(t, actions, r) {
        ExecKeepsQuiet(t, actions, r);
      }
    }
  }

  // ----- a stop that is undone -----

  lemma OneMore(s: State, a: Action, t: State)
    requires Reachable(s) && Apply(s, a) == Some(t)
    ensures Reachable(t)
  {
    var actions :| Exec(INIT, actions) == Some(s);
    ExecSnoc(INIT, actions, a, t);
  }

  /** The message is addressed to the instance, not to the runner. If stop_plugin is called with a
      runner that has been replaced meanwhile, its successor obeys, unflagged, and can be
      restarted by the monitor although a `_stop` message ended its process. */
  lemma StopThroughReplacedRunnerCanBeUndone() returns (t: State)
    ensures Reachable(t) && 1 < |t.runners| && t.runners[1].process == Gone(AskedFor(Some(0)))
    ensures exists actions :: LeadsToRestart(t, actions, 1)
  {
    var outdated := RunnerState("p", 0, Unlaunched, false, Fresh);
    var successor := RunnerState("p", 0, Living, false, Working);
    t := ObeyedAndReported(outdated, successor);
    RestartableExactly(t, 1);
  }

  /** A caller is about to stop runner 0, which is stopped already. */
  lemma AboutToStop(outdated: RunnerState) returns (t: State)
    requires outdated == RunnerState("p", 0, Unlaunched, false, Fresh)
    ensures Reachable(t)
    ensures t == State([outdated], [0], map[0 := STOPPED], {}, [StopCall(0, AtStart, true)], Idle)
  {
    assert Exec(INIT, []) == Some(INIT);
    var s1 := State([outdated], [0], map[], {}, [], Idle);
    assert [] + [outdated] == s1.runners && [] + [0] == s1.registry && !Lists(INIT, [], "p");
    OneMore(INIT, Load("p", 0), s1);
    var s2 := s1.(stops := [StopCall(0, AtStart, true)]);
    assert [] + [StopCall(0, AtStart, true)] == s2.stops;
    OneMore(s1, CallStop(0), s2);
    t := s2.(statuses := map[0 := STOPPED]);
    OneMore(s2, Write(0, STOPPED), t);
  }

  /** Runner 0 is replaced by runner 1, which is launched and reports that it runs. */
  lemma ReplacedWhileStopping(outdated: RunnerState, successor: RunnerState) returns (t: State)
    requires outdated == RunnerState("p", 0, Unlaunched, false, Fresh)
        && successor == RunnerState("p", 0, Living, false, Working)
    ensures Reachable(t)
    ensures t == State([outdated, successor], [1], map[0 := RUNNING], {}, [StopCall(0, AtStart, true)], Idle)
  {
    var s3 := AboutToStop(outdated);
    var s4 := State([outdated, successor.(process := Unlaunched)], [1], map[0 := STARTING], {}, s3.stops, Idle);
    assert Without(s3, [0], "p") == [] && !Lists(s3, [], "p");
    assert s3.runners + [successor.(process := Unlaunched)] == s4.runners && [] + [1] == s4.registry;
    assert s3.statuses[0 := STARTING] == s4.statuses;
    OneMore(s3, CallStart(0), s4);
    var s5 := s4.(runners := [outdated, successor]);
    assert s4.runners[1 := successor] == s5.runners;
    OneMore(s4, Launch(1), s5);
    t := s5.(statuses := map[0 := RUNNING]);
    assert s5.statuses[0 := RUNNING] == t.statuses;
    OneMore(s5, Write(0, RUNNING), t);
  }

  /** The call for runner 0 goes on and sends its message. */
  lemma MessageSent(outdated: RunnerState, successor: RunnerState) returns (t: State)
    requires outdated == RunnerState("p", 0, Unlaunched, false, Fresh)
        && successor == RunnerState("p", 0, Living, false, Working)
    ensures Reachable(t)
    ensures t == State([outdated.(stopFlag := true), successor], [1], map[0 := STOPPING], {Message("p", Some(0))},
                       [StopCall(0, AtJoin, true)], Idle)
  {
    var s := ReplacedWhileStopping(outdated, successor);
    var s1 := s.(stops := [StopCall(0, AtMark, true)]);
    assert s.stops[0 := StopCall(0, AtMark, true)] == s1.stops;
    OneMore(s, StepStop(0, false), s1);
    var s2 := s1.(statuses := map[0 := STOPPING], stops := [StopCall(0, AtFlag, true)]);
    assert s1.stops[0 := StopCall(0, AtFlag, true)] == s2.stops && s1.statuses[0 := STOPPING] == s2.statuses;
    OneMore(s1, StepStop(0, false), s2);
    var flagged := outdated.(stopFlag := true);
    var s3 := s2.(runners := [flagged, successor], stops := [StopCall(0, AtSend, true)]);
    assert s2.stops[0 := StopCall(0, AtSend, true)] == s3.stops && s2.runners[0 := flagged] == s3.runners;
    OneMore(s2, StepStop(0, false), s3);
    t := s3.(mail := {Message("p", Some(0))}, stops := [StopCall(0, AtJoin, true)]);
    assert s3.stops[0 := StopCall(0, AtJoin, true)] == t.stops && {} + {Message("p", Some(0))} == t.mail;
    OneMore(s3, StepStop(0, false), t);
  }

  /** Runner 1 obeys that message, and a late report makes it look running. */
  lemma ObeyedAndReported(outdated: RunnerState, successor: RunnerState) returns (t: State)
    requires outdated == RunnerState("p", 0, Unlaunched, false, Fresh)
        && successor == RunnerState("p", 0, Living, false, Working)
    ensures Reachable(t)
    ensures t == State([outdated.(stopFlag := true), successor.(process := Gone(AskedFor(Some(0))))], [1],
        map[0 := RUNNING],
                       {Message("p", Some(0))}, [StopCall(0, AtJoin, true)], Idle)
  {
    var s4 := MessageSent(outdated, successor);
    var gone := successor.(process := Gone(AskedFor(Some(0))));
    var s5 := s4.(runners := [s4.runners[0], gone]);
    assert s4.runners[1 := gone] == s5.runners;
    OneMore(s4, Obey(1, Message("p", Some(0))), s5);
    t := s5.(statuses := map[0 := RUNNING]);
    assert s5.statuses[0 := RUNNING] == t.statuses;
    OneMore(s5, Write(0, RUNNING), t);
  }
}

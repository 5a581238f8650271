/** When nothing can fail, the start loop ends exactly when the requirements are acyclic and provided. */
module SchedulerExactness {
  import opened Scheduler
  import opened SchedulerSafety
  import opened SchedulerTermination

  /** No queued plugin can be marked as failed for an outside reason: its requirements are known and
      have not failed, and `start_plugin` returns True for it. */
  ghost predicate NothingFails(w: World, s0: State) {
    && (forall p, log | p in s0.queue :: w.starts(log, p).Started?)
    && (forall p, r | p in s0.queue && r in p.requirements :: r in w.known && r !in s0.failed)
  }

  ghost predicate SameRequirements(s0: State) {
    forall p, q | p in s0.queue && q in s0.queue && p.system == q.system :: p.requirements == q.requirements
  }

  lemma DecidedWereQueued(s0: State, s: State, i: nat)
    requires Bookkeeping(s0, s) && i < |s.log|
    ensures s.log[i].plugin in s0.queue
  {
    assert Decided(s.log)[i] == s.log[i].plugin;
    assert s.log[i].plugin in multiset(Decided(s.log));
    assert s.log[i].plugin in multiset(s0.queue);
  }

  /** Then every decision is a successful start. */
  lemma {:induction false} AllStart(w: World, s0: State, s: State, n: nat)
    requires NothingFails(w, s0) && Faithful(w, s0, s) && n <= |s.log|
    ensures forall i | 0 <= i < n :: Starts(s.log[i])
  {
    if n > 0 {
      var m := n - 1;
      AllStart(w, s0, s, m);
      DecidedWereQueued(s0, s, m);
      assert Justified(w, s0, s.log, m);
      if s.log[m].MarkedFailed? {
        FailureCause(w, s0, s.log, m);
        assert false;
      }
    }
  }

  /** A plugin is only marked as failed for a requirement that is unknown, had failed, or has failed. */
  lemma FailureCause(w: World, s0: State, log: seq<Event>, m: nat)
    requires m < |log| && log[m].MarkedFailed? && Justified(w, s0, log, m)
    ensures exists r :: r in log[m].plugin.requirements
              && (r !in w.known || r in s0.failed || exists j :: 0 <= j < m && Fails(log[j]))
  {
    var r := log[m].requirement;
    assert r in log[m].plugin.requirements;
    NamesOf(log[..m], r);
    if r in FailedNames(log[..m]) {
      var j :| 0 <= j < m && Fails(log[..m][j]);
      assert Fails(log[j]);
    }
  }

  /** When a system of this name was first decided. */
  function FirstDecision(log: seq<Event>, name: string): (k: nat)
    ensures k <= |log|
    ensures forall i | 0 <= i < k :: log[i].plugin.system != name
    ensures k < |log| ==> log[k].plugin.system == name
  {
    if log == [] then 0 else if log[0].plugin.system == name then 0 else 1 + FirstDecision(log[1..], name)
  }

  /** In a finished run, systems were started before those that waited for them. */
  lemma WaitedForIsEarlier(w: World, s0: State, s: State, x: string, y: string)
    requires NothingFails(w, s0) && SameRequirements(s0) && Faithful(w, s0, s) && s.queue == []
    requires WaitsFor(w, s0, x, y)
    ensures FirstDecision(s.log, y) < FirstDecision(s.log, x) < |s.log|
    ensures Provided(s0, y)
  {
    AllStart(w, s0, s, |s.log|);
    var p :| p in s0.queue && p.system == x && y in p.requirements && Blocking(w, s0, y);
    assert p in multiset(s0.queue);
    assert p in Decided(s.log);
    var i :| 0 <= i < |s.log| && s.log[i].plugin == p;
    var k := FirstDecision(s.log, x);
    DecidedWereQueued(s0, s, k);
    assert y in s.log[k].plugin.requirements;
    assert Justified(w, s0, s.log, k) && Starts(s.log[k]);
    NamesOf(s.log[..k], y);
    var j :| 0 <= j < k && Starts(s.log[..k][j]) && s.log[..k][j].plugin.system == y;
    DecidedWereQueued(s0, s, j);
    assert s.log[j].plugin.system == y;
  }

  lemma {:induction false} WalkGoesBack(w: World, s0: State, s: State, names: seq<string>)
    requires NothingFails(w, s0) && SameRequirements(s0) && Faithful(w, s0, s) && s.queue == []
    requires |names| > 1 && Walk(w, s0, names)
    ensures FirstDecision(s.log, names[|names| - 1]) < FirstDecision(s.log, names[0])
    decreases |names|
  {
    assert SchedulerTermination.Linked(w, s0, names, 0);
    WaitedForIsEarlier(w, s0, s, names[0], names[1]);
    if |names| > 2 {
      WalkFromMiddle(w, s0, names, 1);
      WalkGoesBack(w, s0, s, names[1..]);
    }
  }

  /** A run without failures never aborts and ends only when everything has been started. */
  lemma HaltedHasStartedAll(w: World, plugins: seq<Plugin>, failed0: seq<string>, started0: seq<string>, pops: nat)
    requires var s0 := Init(plugins, failed0, started0); NothingFails(w, s0) && Halted(Run(w, s0, pops))
    ensures var s := Run(w, Init(plugins, failed0, started0), pops);
            && s.queue == [] && multiset(Decided(s.log)) == multiset(plugins)
            && forall i | 0 <= i < |s.log| :: Starts(s.log[i])
  {
    var s0 := Init(plugins, failed0, started0);
    ReachableIsFaithful(w, plugins, failed0, started0, pops);
    AllStart(w, s0, Run(w, s0, pops), |Run(w, s0, pops).log|);
  }

  /** Exact termination without failures: the loop ends if and only if every system that has to be
      waited for is queued and no queued plugin waits for itself through others. */
  lemma EndsExactlyWhenAcyclic(w: World, plugins: seq<Plugin>, failed0: seq<string>, started0: seq<string>)
    requires var s0 := Init(plugins, failed0, started0); NothingFails(w, s0) && SameRequirements(s0)
    ensures var s0 := Init(plugins, failed0, started0);
            Terminates(w, s0) <==> Covered(w, s0) && Acyclic(w, s0)
  {
    var s0 := Init(plugins, failed0, started0);
    if Terminates(w, s0) {
      var pops: nat :| Halted(Run(w, s0, pops));
      var s := Run(w, s0, pops);
      ReachableIsFaithful(w, plugins, failed0, started0, pops);
      HaltedHasStartedAll(w, plugins, failed0, started0, pops);
      forall p, r | p in s0.queue && r in p.requirements && Blocking(w, s0, r) ensures Provided(s0, r) {
        assert WaitsFor(w, s0, p.system, r);
        WaitedForIsEarlier(w, s0, s, p.system, r);
      }
      forall names: seq<string> | |names| > 1 && Walk(w, s0, names) ensures names[0] != names[|names| - 1] {
        WalkGoesBack(w, s0, s, names);
      }
    }
    if Covered(w, s0) && Acyclic(w, s0) {
      AcyclicTerminates(w, plugins, failed0, started0);
    }
  }
}

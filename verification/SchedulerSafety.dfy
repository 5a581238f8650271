/** What every reachable state of the start loop satisfies, over all runs. */
module SchedulerSafety {
  import opened Scheduler

  /** Names counted as failed, respectively started, when the i-th decision was made. */
  function FailedBefore(s0: State, log: seq<Event>, i: nat): set<string>
    requires i <= |log|
  {
    ToSet(s0.failed + FailedNames(log[..i]))
  }

  function StartedBefore(s0: State, log: seq<Event>, i: nat): set<string>
    requires i <= |log|
  {
    ToSet(s0.started + StartedNames(log[..i]))
  }

  /** The i-th decision follows from the names known, failed and started at that moment. */
  ghost predicate Justified(w: World, s0: State, log: seq<Event>, i: nat)
    requires i < |log|
  {
    var F, T := FailedBefore(s0, log, i), StartedBefore(s0, log, i);
    match log[i]
    case Attempted(p, outcome) =>
      && outcome == w.starts(log[..i], p)
      && forall r | r in p.requirements :: r in w.known && r !in F && r in T
    case MarkedFailed(p, requirement) =>
      exists k :: FirstFailure(ToSet(w.known), F, T, p.requirements, k) && p.requirements[k] == requirement
  }

  /** The name lists are the initial ones plus what the log says, and no plugin is lost or doubled. */
  ghost predicate Bookkeeping(s0: State, s: State) {
    && s.failed == s0.failed + FailedNames(s.log)
    && s.started == s0.started + StartedNames(s.log)
    && multiset(s.queue) + multiset(Decided(s.log)) == multiset(s0.queue)
  }

  ghost predicate AllJustified(w: World, s0: State, log: seq<Event>) {
    forall i | 0 <= i < |log| :: Justified(w, s0, log, i)
  }

  predicate Raises(e: Event) {
    e.Attempted? && e.outcome.Raised?
  }

  /** An exception ends the loop: only the last decision can have raised. */
  ghost predicate RaisesLast(s: State) {
    && (s.aborted <==> s.log != [] && Raises(s.log[|s.log| - 1]))
    && (forall i | 0 <= i < |s.log| - 1 :: !Raises(s.log[i]))
  }

  ghost predicate Faithful(w: World, s0: State, s: State) {
    Bookkeeping(s0, s) && AllJustified(w, s0, s.log) && RaisesLast(s)
  }

  lemma AppendEvent(log: seq<Event>, e: Event)
    ensures FailedNames(log + [e]) == FailedNames(log) + if Fails(e) then [e.plugin.system] else []
    ensures StartedNames(log + [e]) == StartedNames(log) + if Starts(e) then [e.plugin.system] else []
    ensures Decided(log + [e]) == Decided(log) + [e.plugin]
  {
    assert (log + [e])[..|log|] == log;
  }

  /** Appending a decision leaves the justification of the earlier ones as it was. */
  lemma JustifiedStays(w: World, s0: State, log: seq<Event>, e: Event, i: nat)
    requires i < |log| && Justified(w, s0, log, i)
    ensures Justified(w, s0, log + [e], i)
  {
    assert (log + [e])[..i] == log[..i];
  }

  lemma MovePlugin(queue: seq<Plugin>, log: seq<Event>, e: Event)
    requires queue != [] && e.plugin == queue[|queue| - 1]
    ensures multiset(queue[..|queue| - 1]) + multiset(Decided(log + [e])) == multiset(queue) + multiset(Decided(log))
  {
    AppendEvent(log, e);
    assert queue == queue[..|queue| - 1] + [e.plugin];
  }

  lemma RotatePlugin(queue: seq<Plugin>)
    requires queue != []
    ensures multiset([queue[|queue| - 1]] + queue[..|queue| - 1]) == multiset(queue)
  {
    assert queue == queue[..|queue| - 1] + [queue[|queue| - 1]];
  }

  /** What one iteration does to the log and the lists. */
  lemma StepAppends(w: World, s: State)
    requires !Halted(s)
    ensures var s', rest := Step(w, s), s.queue[..|s.queue| - 1];
            || (s' == s.(queue := [s.queue[|s.queue| - 1]] + rest))
            || exists e: Event ::
                 && e.plugin == s.queue[|s.queue| - 1] && s'.log == s.log + [e] && s'.queue == rest
                 && s'.failed == s.failed + (if Fails(e) then [e.plugin.system] else [])
                 && s'.started == s.started + (if Starts(e) then [e.plugin.system] else [])
                 && s'.aborted == Raises(e)
  {
    var s' := Step(w, s);
    if s'.log != s.log {
      var e := s'.log[|s.log|];
      assert s'.log == s.log + [e];
      assert s.failed + [] == s.failed && s.started + [] == s.started;
    }
  }

  lemma StepKeepsBookkeeping(w: World, s0: State, s: State)
    requires Bookkeeping(s0, s) && !Halted(s)
    ensures Bookkeeping(s0, Step(w, s))
  {
    var s' := Step(w, s);
    StepAppends(w, s);
    if s'.log == s.log {
      RotatePlugin(s.queue);
    } else {
      var e := s'.log[|s.log|];
      MovePlugin(s.queue, s.log, e);
      AppendEvent(s.log, e);
      AppendTwice(s0.failed, FailedNames(s.log), if Fails(e) then [e.plugin.system] else []);
      AppendTwice(s0.started, StartedNames(s.log), if Starts(e) then [e.plugin.system] else []);
    }
  }

  lemma AppendTwice(a: seq<string>, b: seq<string>, c: seq<string>)
    ensures (a + b) + c == a + (b + c)
  {
  }

  lemma StepJustifies(w: World, s0: State, s: State)
    requires Bookkeeping(s0, s) && !Halted(s)
    ensures Step(w, s).log == s.log
            || (Step(w, s).log[..|s.log|] == s.log && |Step(w, s).log| == |s.log| + 1
                && Justified(w, s0, Step(w, s).log, |s.log|))
  {
    var p, s' := s.queue[|s.queue| - 1], Step(w, s);
    DecideMeaning(ToSet(w.known), ToSet(s.failed), ToSet(s.started), p.requirements);
    if s'.log != s.log {
      assert s'.log[..|s.log|] == s.log;
    }
  }

  lemma AllStayJustified(w: World, s0: State, log: seq<Event>, e: Event)
    requires AllJustified(w, s0, log) && Justified(w, s0, log + [e], |log|)
    ensures AllJustified(w, s0, log + [e])
  {
    forall i | 0 <= i < |log| ensures Justified(w, s0, log + [e], i) {
      JustifiedStays(w, s0, log, e, i);
    }
  }

  lemma StepKeepsFaithful(w: World, s0: State, s: State)
    requires Faithful(w, s0, s) && !Halted(s)
    ensures Faithful(w, s0, Step(w, s))
  {
    StepKeepsBookkeeping(w, s0, s);
    StepJustifies(w, s0, s);
    StepAppends(w, s);
    var log' := Step(w, s).log;
    if log' != s.log {
      assert log' == s.log + [log'[|s.log|]];
      AllStayJustified(w, s0, s.log, log'[|s.log|]);
    }
  }

  lemma {:induction false} RunKeepsFaithful(w: World, s0: State, s: State, pops: nat)
    requires Faithful(w, s0, s)
    ensures Faithful(w, s0, Run(w, s, pops))
    decreases pops
  {
    if pops != 0 && !Halted(s) {
      StepKeepsFaithful(w, s0, s);
      RunKeepsFaithful(w, s0, Step(w, s), pops - 1);
    }
  }

  lemma ReachableIsFaithful(w: World, plugins: seq<Plugin>, failed0: seq<string>, started0: seq<string>, pops: nat)
    ensures var s0 := Init(plugins, failed0, started0); Faithful(w, s0, Run(w, s0, pops))
  {
    RunKeepsFaithful(w, Init(plugins, failed0, started0), Init(plugins, failed0, started0), pops);
  }

  /** Conservation: queued and decided plugins partition the input, so a finished loop has decided
      every input plugin exactly as often as it was passed in. */
  lemma Conservation(w: World, plugins: seq<Plugin>, failed0: seq<string>, started0: seq<string>, pops: nat)
    ensures var s := Run(w, Init(plugins, failed0, started0), pops);
            && multiset(s.queue) + multiset(Decided(s.log)) == multiset(plugins)
            && (s.queue == [] ==> multiset(Decided(s.log)) == multiset(plugins))
  {
    ReachableIsFaithful(w, plugins, failed0, started0, pops);
  }

  lemma {:induction false} NamesOf(log: seq<Event>, name: string)
    ensures name in FailedNames(log) <==> exists j | 0 <= j < |log| :: Fails(log[j]) && log[j].plugin.system == name
    ensures name in StartedNames(log) <==> exists j | 0 <= j < |log| :: Starts(log[j]) && log[j].plugin.system == name
  {
    if log != [] {
      var init := log[..|log| - 1];
      NamesOf(init, name);
      assert forall j | 0 <= j < |init| :: init[j] == log[j];
      var last := |log| - 1;
      assert name in FailedNames(log)
          <==> name in FailedNames(init) || (Fails(log[last]) && log[last].plugin.system == name);
      assert name in StartedNames(log)
          <==> name in StartedNames(init) || (Starts(log[last]) && log[last].plugin.system == name);
    }
  }

  lemma JustifiedStart(w: World, s0: State, log: seq<Event>, i: nat, r: string)
    requires i < |log| && Justified(w, s0, log, i) && log[i].Attempted? && r in log[i].plugin.requirements
    ensures r in w.known && r !in s0.failed
    ensures forall j | 0 <= j < i && log[j].plugin.system == r :: Starts(log[j]) || Raises(log[j])
    ensures r in s0.started || exists j | 0 <= j < i :: Starts(log[j]) && log[j].plugin.system == r
  {
    NamesOf(log[..i], r);
    assert FailedBefore(s0, log, i) == ToSet(s0.failed + FailedNames(log[..i]));
    forall j | 0 <= j < i && log[j].plugin.system == r ensures Starts(log[j]) || Raises(log[j]) {
      assert log[..i][j] == log[j];
    }
    if r !in s0.started {
      var j :| 0 <= j < i && Starts(log[..i][j]) && log[..i][j].plugin.system == r;
      assert Starts(log[j]);
    }
  }

  /** Start order: a plugin is only attempted when all its requirements are known systems that are
      not failed at that moment and run already, from before the loop or by an earlier start. */
  lemma StartOrder(w: World, plugins: seq<Plugin>, failed0: seq<string>, started0: seq<string>, pops: nat, i: nat,
      r: string)
    requires var s := Run(w, Init(plugins, failed0, started0), pops);
             i < |s.log| && s.log[i].Attempted? && r in s.log[i].plugin.requirements
    ensures var s := Run(w, Init(plugins, failed0, started0), pops);
            && r in w.known
            && r !in failed0
            && (forall j | 0 <= j < i && s.log[j].plugin.system == r :: Starts(s.log[j]))
            && (r in started0 || exists j | 0 <= j < i :: Starts(s.log[j]) && s.log[j].plugin.system == r)
  {
    ReachableIsFaithful(w, plugins, failed0, started0, pops);
    var s0 := Init(plugins, failed0, started0);
    var s := Run(w, s0, pops);
    assert Justified(w, s0, s.log, i);
    JustifiedStart(w, s0, s.log, i, r);
  }

  /** `chain` explains a failure: each name in it belongs to a plugin marked as failed because of the
      next name, and the last one is unknown, failed initially, or refused to start. */
  ghost predicate Certificate(w: World, failed0: seq<string>, log: seq<Event>, chain: seq<string>) {
    && chain != []
    && (forall i | 0 <= i < |chain| - 1 :: Linked(log, chain, i))
    && RootCause(w, failed0, log, chain[|chain| - 1])
  }

  ghost predicate Linked(log: seq<Event>, chain: seq<string>, i: nat)
    requires i + 1 < |chain|
  {
    MarkedBecauseOf(log, chain[i], chain[i + 1])
  }

  ghost predicate MarkedBecauseOf(log: seq<Event>, name: string, cause: string) {
    exists j :: 0 <= j < |log| && log[j].MarkedFailed? && log[j].plugin.system == name
                && log[j].requirement == cause && cause in log[j].plugin.requirements
  }

  ghost predicate RootCause(w: World, failed0: seq<string>, log: seq<Event>, name: string) {
    || name !in w.known
    || name in failed0
    || exists j :: 0 <= j < |log| && log[j].Attempted? && log[j].outcome.Refused? && log[j].plugin.system == name
  }

  /** Without a root cause, an earlier plugin of that name was marked as failed. */
  lemma EarlierFailure(w: World, s0: State, log: seq<Event>, i: nat) returns (j: nat)
    requires i < |log| && log[i].MarkedFailed? && Justified(w, s0, log, i)
    requires !RootCause(w, s0.failed, log[..i], log[i].requirement)
    ensures j < i && log[j].MarkedFailed? && log[j].plugin.system == log[i].requirement
  {
    var r := log[i].requirement;
    NamesOf(log[..i], r);
    assert r in FailedNames(log[..i]);
    j :| 0 <= j < i && Fails(log[..i][j]) && log[..i][j].plugin.system == r;
    assert log[..i][j] == log[j];
  }

  /** Failure certificates: the requirement that a plugin was marked as failed for heads a finite
      chain, built from earlier decisions only, that ends in a root cause. */
  lemma {:induction false} FailureCertificate(w: World, s0: State, log: seq<Event>, i: nat) returns (chain: seq<string>)
    requires i < |log| && log[i].MarkedFailed?
    requires forall j | 0 <= j < |log| :: Justified(w, s0, log, j)
    ensures Certificate(w, s0.failed, log[..i], chain)
    ensures chain[0] == log[i].requirement && chain[0] in log[i].plugin.requirements
    decreases i
  {
    var r := log[i].requirement;
    assert Justified(w, s0, log, i);
    assert r in log[i].plugin.requirements;
    if RootCause(w, s0.failed, log[..i], r) {
      chain := [r];
    } else {
      var j := EarlierFailure(w, s0, log, i);
      var rest := FailureCertificate(w, s0, log, j);
      CertificateExtends(w, s0.failed, log, j, i, rest);
      chain := [r] + rest;
      assert MarkedBecauseOf(log[..i], r, rest[0]) by {
        assert log[..i][j] == log[j];
      }
      ChainGrows(w, s0.failed, log[..i], r, rest);
    }
  }

  lemma ChainGrows(w: World, failed0: seq<string>, log: seq<Event>, r: string, rest: seq<string>)
    requires Certificate(w, failed0, log, rest) && MarkedBecauseOf(log, r, rest[0])
    ensures Certificate(w, failed0, log, [r] + rest)
  {
    var chain := [r] + rest;
    forall k | 0 <= k < |chain| - 1 ensures Linked(log, chain, k) {
      assert k > 0 ==> Linked(log, rest, k - 1);
    }
  }

  lemma CertificateExtends(w: World, failed0: seq<string>, log: seq<Event>, i: nat, j: nat, chain: seq<string>)
    requires i <= j <= |log| && Certificate(w, failed0, log[..i], chain)
    ensures Certificate(w, failed0, log[..j], chain)
  {
    forall k | 0 <= k < |chain| - 1 ensures Linked(log[..j], chain, k) {
      assert Linked(log[..i], chain, k) && MarkedBecauseOf(log[..i], chain[k], chain[k + 1]);
      var m :| 0 <= m < i && log[..i][m].MarkedFailed? && log[..i][m].plugin.system == chain[k]
               && log[..i][m].requirement == chain[k + 1] && chain[k + 1] in log[..i][m].plugin.requirements;
      assert log[..j][m] == log[..i][m];
    }
    var name := chain[|chain| - 1];
    if name in w.known && name !in failed0 {
      var m :| 0 <= m < i && log[..i][m].Attempted? && log[..i][m].outcome.Refused?
          && log[..i][m].plugin.system == name;
      assert log[..j][m] == log[..i][m];
    }
  }

  /** Every plugin that a run marks as failed has such a certificate. */
  lemma MarkedPluginsAreCertified(w: World, plugins: seq<Plugin>, failed0: seq<string>, started0: seq<string>,
      pops: nat, i: nat)
    requires var s := Run(w, Init(plugins, failed0, started0), pops); i < |s.log| && s.log[i].MarkedFailed?
    ensures var s := Run(w, Init(plugins, failed0, started0), pops);
            exists chain :: Certificate(w, failed0, s.log[..i], chain) && chain[0] in s.log[i].plugin.requirements
  {
    ReachableIsFaithful(w, plugins, failed0, started0, pops);
    var s0 := Init(plugins, failed0, started0);
    var chain := FailureCertificate(w, s0, Run(w, s0, pops).log, i);
  }

  /** start_plugin returns True or raises, so in fact every failure goes back to a system that is unknown
      or had failed before the loop. */
  lemma FailuresComeFromOutside(w: World, plugins: seq<Plugin>, failed0: seq<string>, started0: seq<string>, pops: nat,
      i: nat)
    requires forall log, p :: !w.starts(log, p).Refused?
    requires var s := Run(w, Init(plugins, failed0, started0), pops); i < |s.log| && s.log[i].MarkedFailed?
    ensures var s := Run(w, Init(plugins, failed0, started0), pops);
            exists chain :: Certificate(w, failed0, s.log[..i], chain) && chain[0] in s.log[i].plugin.requirements
                            && (chain[|chain| - 1] !in w.known || chain[|chain| - 1] in failed0)
  {
    MarkedPluginsAreCertified(w, plugins, failed0, started0, pops, i);
    ReachableIsFaithful(w, plugins, failed0, started0, pops);
    var s0 := Init(plugins, failed0, started0);
    var s := Run(w, s0, pops);
    var chain :| Certificate(w, failed0, s.log[..i], chain) && chain[0] in s.log[i].plugin.requirements;
    forall j | 0 <= j < i ensures !(s.log[..i][j].Attempted? && s.log[..i][j].outcome.Refused?) {
      assert Justified(w, s0, s.log, j);
    }
  }
}

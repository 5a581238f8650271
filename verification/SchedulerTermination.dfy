/** When the start loop ends, how fast, and when it never does. */
module SchedulerTermination {
  import opened Scheduler
  import opened SchedulerSafety

  predicate Decidable(w: World, s: State, p: Plugin) {
    !VerdictOn(w, s, p).Skip?
  }

  /** Some queued plugin would not be put back. */
  ghost predicate CanDecide(w: World, s: State) {
    exists k :: 0 <= k < |s.queue| && Decidable(w, s, s.queue[k])
  }

  /** As long as the loop goes on, some queued plugin would not be put back. */
  ghost predicate Progressive(w: World, s: State) {
    forall pops: nat :: var s' := Run(w, s, pops); Halted(s') || CanDecide(w, s')
  }

  function Triangle(n: nat): nat {
    if n == 0 then 0 else n + Triangle(n - 1)
  }

  lemma {:induction false} TriangleClosedForm(n: nat)
    ensures Triangle(n) == n * (n + 1) / 2
  {
    if n > 0 {
      TriangleClosedForm(n - 1);
      assert n * (n + 1) == (n - 1) * n + 2 * n;
    }
  }

  /** A plugin is put back exactly when a known requirement is neither failed nor started and all
      requirements before it are satisfied. */
  lemma {:induction false} SkipMeaning(known: set<string>, failed: set<string>, started: set<string>, reqs: seq<string>)
    ensures Decide(known, failed, started, reqs).Skip? <==>
              exists k :: 0 <= k < |reqs| && Pending(known, failed, started, reqs[k])
                          && forall j | 0 <= j < k :: reqs[j] in known && reqs[j] !in failed && reqs[j] in started
  {
    if reqs != [] {
      var tail := reqs[1..];
      SkipMeaning(known, failed, started, tail);
      if Decide(known, failed, started, tail).Skip? {
        var k :| 0 <= k < |tail| && Pending(known, failed, started, tail[k])
                 && forall j | 0 <= j < k :: tail[j] in known && tail[j] !in failed && tail[j] in started;
        if reqs[0] in known && reqs[0] !in failed && reqs[0] in started {
          assert Pending(known, failed, started, reqs[k + 1]);
        }
      }
      if Pending(known, failed, started, reqs[0]) {
        assert Decide(known, failed, started, reqs).Skip?;
      } else {
        forall k | 0 <= k < |reqs| && Pending(known, failed, started, reqs[k])
                   && forall j | 0 <= j < k :: reqs[j] in known && reqs[j] !in failed && reqs[j] in started
          ensures Decide(known, failed, started, reqs).Skip?
        {
          assert k > 0 && tail[k - 1] == reqs[k];
          assert forall j | 0 <= j < k - 1 :: tail[j] == reqs[j + 1];
        }
      }
    }
  }

  predicate Pending(known: set<string>, failed: set<string>, started: set<string>, r: string) {
    r in known && r !in failed && r !in started
  }

  /** A skip leaves the name lists alone and brings the next decidable plugin one pop closer. */
  lemma SkipShortensDistance(w: World, s: State, k: nat)
    requires !Halted(s) && k < |s.queue| && Decidable(w, s, s.queue[k])
    requires VerdictOn(w, s, s.queue[|s.queue| - 1]).Skip?
    ensures var s' := Step(w, s);
            && !Halted(s') && |s'.queue| == |s.queue| && k + 1 < |s'.queue|
            && s'.queue[k + 1] == s.queue[k] && Decidable(w, s', s'.queue[k + 1])
            && s'.failed == s.failed && s'.started == s.started && s'.log == s.log
  {
  }

  /** The number of pops until the decidable plugin at position k, or one behind it, is decided. */
  lemma {:induction false} DecisionWithinDistance(w: World, s: State, k: nat) returns (pops: nat)
    requires !Halted(s) && k < |s.queue| && Decidable(w, s, s.queue[k])
    ensures 1 <= pops <= |s.queue| - k
    ensures |Run(w, s, pops).queue| == |s.queue| - 1
    decreases |s.queue| - k
  {
    if VerdictOn(w, s, s.queue[|s.queue| - 1]).Skip? {
      SkipShortensDistance(w, s, k);
      var rest := DecisionWithinDistance(w, Step(w, s), k + 1);
      pops := 1 + rest;
    } else {
      pops := 1;
      assert Run(w, s, 1) == Run(w, Step(w, s), 0);
    }
  }

  /** The bound: a loop over n plugins that can always decide one ends within n(n+1)/2 pops. */
  lemma {:induction false} ProgressiveEnds(w: World, s: State)
    requires Progressive(w, s)
    ensures Halted(Run(w, s, Triangle(|s.queue|)))
    decreases |s.queue|
  {
    if !Halted(s) {
      assert Run(w, s, 0) == s;
      var k :| 0 <= k < |s.queue| && Decidable(w, s, s.queue[k]);
      var pops := DecisionWithinDistance(w, s, k);
      var s' := Run(w, s, pops);
      forall n: nat ensures var s'' := Run(w, s', n); Halted(s'') || CanDecide(w, s'') {
        RunCompose(w, s, pops, n);
      }
      ProgressiveEnds(w, s');
      var t := Triangle(|s'.queue|);
      RunCompose(w, s, pops, t);
      RunCompose(w, s, pops + t, Triangle(|s.queue|) - pops - t);
    }
  }

  // ----- a sufficient condition: acyclic requirements that somebody provides -----

  /** The loop has to wait for a system of this name. */
  predicate Blocking(w: World, s0: State, r: string) {
    Pending(ToSet(w.known), ToSet(s0.failed), ToSet(s0.started), r)
  }

  ghost predicate Provided(s0: State, r: string) {
    exists q :: q in s0.queue && q.system == r
  }

  ghost predicate Covered(w: World, s0: State) {
    forall p, r | p in s0.queue && r in p.requirements && Blocking(w, s0, r) :: Provided(s0, r)
  }

  /** Some queued plugin named `x` has to wait for `y`. */
  ghost predicate WaitsFor(w: World, s0: State, x: string, y: string) {
    exists p :: p in s0.queue && p.system == x && y in p.requirements && Blocking(w, s0, y)
  }

  ghost predicate Linked(w: World, s0: State, names: seq<string>, i: nat)
    requires i + 1 < |names|
  {
    WaitsFor(w, s0, names[i], names[i + 1])
  }

  ghost predicate Walk(w: World, s0: State, names: seq<string>) {
    forall i | 0 <= i < |names| - 1 :: Linked(w, s0, names, i)
  }

  ghost predicate Acyclic(w: World, s0: State) {
    forall names: seq<string> | |names| > 1 && Walk(w, s0, names) :: names[0] != names[|names| - 1]
  }

  /** All plugins named x wait only for names outside S. */
  ghost predicate IsSource(w: World, s0: State, S: set<string>, x: string) {
    forall y | y in S :: !WaitsFor(w, s0, x, y)
  }

  ghost predicate HasSource(w: World, s0: State, S: set<string>) {
    exists x {:trigger IsSource(w, s0, S, x)} :: x in S && IsSource(w, s0, S, x)
  }

  lemma WalkOneFurther(w: World, s0: State, names: seq<string>, y: string)
    requires names != [] && Walk(w, s0, names) && WaitsFor(w, s0, names[|names| - 1], y)
    ensures Walk(w, s0, names + [y])
  {
    var longer := names + [y];
    forall i | 0 <= i < |longer| - 1 ensures Linked(w, s0, longer, i) {
      if i < |names| - 1 {
        assert Linked(w, s0, names, i);
      }
    }
  }

  lemma WalkFromMiddle(w: World, s0: State, names: seq<string>, i: nat)
    requires Walk(w, s0, names) && i <= |names|
    ensures Walk(w, s0, names[i..])
  {
    var rest := names[i..];
    forall j | 0 <= j < |rest| - 1 ensures Linked(w, s0, rest, j) {
      assert Linked(w, s0, names, i + j);
    }
  }

  /** A set without a source can be walked forever, so by counting it contains a cycle. */
  lemma {:induction false} NoSourceMakesCycle(w: World, s0: State, S: set<string>, names: seq<string>)
      returns (cycle: seq<string>)
    requires !HasSource(w, s0, S)
    requires names != [] && Walk(w, s0, names) && ToSet(names) <= S && |ToSet(names)| == |names|
    ensures |cycle| > 1 && Walk(w, s0, cycle) && cycle[0] == cycle[|cycle| - 1]
    decreases |S| - |names|
  {
    var x := names[|names| - 1];
    assert x in ToSet(names);
    assert !IsSource(w, s0, S, x);
    var y :| y in S && WaitsFor(w, s0, x, y);
    WalkOneFurther(w, s0, names, y);
    SubsetSize(ToSet(names), S);
    if y in names {
      var i :| 0 <= i < |names| && names[i] == y;
      WalkFromMiddle(w, s0, names + [y], i);
      cycle := (names + [y])[i..];
    } else {
      assert ToSet(names + [y]) == ToSet(names) + {y};
      SubsetSize(ToSet(names + [y]), S);
      cycle := NoSourceMakesCycle(w, s0, S, names + [y]);
    }
  }

  lemma {:induction false} SubsetSize<T>(a: set<T>, b: set<T>)
    requires a <= b
    ensures |a| <= |b|
  {
    if a != {} {
      var x :| x in a;
      SubsetSize(a - {x}, b - {x});
    }
  }

  lemma AcyclicHasSource(w: World, s0: State, S: set<string>)
    requires Acyclic(w, s0) && S != {}
    ensures HasSource(w, s0, S)
  {
    if !HasSource(w, s0, S) {
      var x :| x in S;
      assert ToSet([x]) == {x} && |{x}| == 1;
      var cycle := NoSourceMakesCycle(w, s0, S, [x]);
    }
  }

  lemma ProvidedOnceDecided(s0: State, s: State, q: Plugin)
    requires Bookkeeping(s0, s) && RaisesLast(s) && !s.aborted && q in s0.queue && q !in s.queue
    ensures q.system in s.failed || q.system in s.started
  {
    assert q in multiset(s0.queue);
    assert q in Decided(s.log);
    var i :| 0 <= i < |s.log| && s.log[i].plugin == q;
    NamesOf(s.log, q.system);
    assert !Raises(s.log[i]);
    assert Fails(s.log[i]) || Starts(s.log[i]);
  }

  lemma AcyclicIsProgressive(w: World, plugins: seq<Plugin>, failed0: seq<string>, started0: seq<string>)
    requires var s0 := Init(plugins, failed0, started0); Covered(w, s0) && Acyclic(w, s0)
    ensures Progressive(w, Init(plugins, failed0, started0))
  {
    var s0 := Init(plugins, failed0, started0);
    forall pops: nat ensures var s := Run(w, s0, pops); Halted(s) || CanDecide(w, s) {
      var s := Run(w, s0, pops);
      if !Halted(s) {
        ReachableIsFaithful(w, plugins, failed0, started0, pops);
        var names := set p | p in s.queue :: p.system;
        assert s.queue[0].system in names;
        AcyclicHasSource(w, s0, names);
        var x :| x in names && IsSource(w, s0, names, x);
        var k :| 0 <= k < |s.queue| && s.queue[k].system == x;
        SourceIsDecidable(w, s0, s, k);
      }
    }
  }

  lemma SourceIsDecidable(w: World, s0: State, s: State, k: nat)
    requires Covered(w, s0) && Faithful(w, s0, s) && !s.aborted && k < |s.queue|
    requires forall q | q in s.queue :: !WaitsFor(w, s0, s.queue[k].system, q.system)
    ensures Decidable(w, s, s.queue[k])
  {
    var p := s.queue[k];
    SkipMeaning(ToSet(w.known), ToSet(s.failed), ToSet(s.started), p.requirements);
    forall r | r in p.requirements ensures !Pending(ToSet(w.known), ToSet(s.failed), ToSet(s.started), r) {
      if Blocking(w, s0, r) {
        assert p in multiset(s.queue) && p in multiset(s0.queue);
        assert Provided(s0, r);
        var q :| q in s0.queue && q.system == r;
        assert WaitsFor(w, s0, p.system, r);
        ProvidedOnceDecided(s0, s, q);
      }
    }
  }

  /** Termination: if no queued plugin waits for itself through others, and every system that has to
      be waited for is queued, the loop over n plugins ends within n(n+1)/2 pops, with everything
      decided unless `start_plugin` raised. */
  lemma AcyclicTerminates(w: World, plugins: seq<Plugin>, failed0: seq<string>, started0: seq<string>)
    requires var s0 := Init(plugins, failed0, started0); Covered(w, s0) && Acyclic(w, s0)
    ensures var n := |plugins|;
            var s := Run(w, Init(plugins, failed0, started0), n * (n + 1) / 2);
            || (s.queue == [] && multiset(Decided(s.log)) == multiset(plugins))
            || (s.log != [] && Raises(s.log[|s.log| - 1]))
    ensures Terminates(w, Init(plugins, failed0, started0))
  {
    AcyclicIsProgressive(w, plugins, failed0, started0);
    ProgressiveEnds(w, Init(plugins, failed0, started0));
    TriangleClosedForm(|plugins|);
    ReachableIsFaithful(w, plugins, failed0, started0, Triangle(|plugins|));
  }

  // ----- the hypothesis is needed: blocked sets stay queued forever -----

  ghost predicate OnlyFrom(s0: State, S: set<Plugin>, r: string) {
    forall q | q in s0.queue && q.system == r :: q in S
  }

  /** Requirement i of p has to be waited for, and neither it nor an earlier one can be settled by a
      plugin outside S. */
  ghost predicate BlockedAt(w: World, s0: State, S: set<Plugin>, p: Plugin, i: int) {
    && 0 <= i < |p.requirements|
    && p.requirements[i] !in s0.started
    && forall j | 0 <= j <= i ::
         p.requirements[j] in w.known && p.requirements[j] !in s0.failed && OnlyFrom(s0, S, p.requirements[j])
  }

  ghost predicate BlockedSet(w: World, s0: State, S: set<Plugin>) {
    forall p | p in S :: p in s0.queue && exists i :: BlockedAt(w, s0, S, p, i)
  }

  lemma {:induction false} BlockedNeverDecided(w: World, s0: State, s: State, S: set<Plugin>, n: nat)
    requires BlockedSet(w, s0, S) && Faithful(w, s0, s) && n <= |s.log|
    ensures forall i | 0 <= i < n :: s.log[i].plugin !in S
  {
    if n > 0 {
      var m := n - 1;
      BlockedNeverDecided(w, s0, s, S, m);
      var p := s.log[m].plugin;
      if p in S {
        var i :| BlockedAt(w, s0, S, p, i);
        forall j | 0 <= j <= i
          ensures p.requirements[j] !in FailedBefore(s0, s.log, m)
          ensures p.requirements[j] in StartedBefore(s0, s.log, m) ==> p.requirements[j] in s0.started
        {
          OnlyInsideStaysUnsettled(s0, s, S, p.requirements[j], m);
        }
        BlockedIsNotJustified(w, s0, s.log, S, m, i);
        assert false;
      }
    }
  }

  lemma BlockedIsNotJustified(w: World, s0: State, log: seq<Event>, S: set<Plugin>, m: nat, i: int)
    requires m < |log| && BlockedAt(w, s0, S, log[m].plugin, i)
    requires forall j | 0 <= j <= i :: log[m].plugin.requirements[j] !in FailedBefore(s0, log, m)
    requires log[m].plugin.requirements[i] !in StartedBefore(s0, log, m)
    ensures !Justified(w, s0, log, m)
  {
    var p, F, T := log[m].plugin, FailedBefore(s0, log, m), StartedBefore(s0, log, m);
    assert p.requirements[i] in p.requirements;
    forall k ensures !FirstFailure(ToSet(w.known), F, T, p.requirements, k) {
    }
  }

  lemma OnlyInsideStaysUnsettled(s0: State, s: State, S: set<Plugin>, r: string, m: nat)
    requires Bookkeeping(s0, s) && m <= |s.log| && OnlyFrom(s0, S, r)
    requires forall i | 0 <= i < m :: s.log[i].plugin !in S
    ensures r !in FailedNames(s.log[..m]) && r !in StartedNames(s.log[..m])
  {
    NamesOf(s.log[..m], r);
    forall i | 0 <= i < m ensures s.log[i].plugin.system != r {
      assert Decided(s.log)[i] == s.log[i].plugin;
      assert s.log[i].plugin in multiset(Decided(s.log));
      assert s.log[i].plugin in multiset(s0.queue);
    }
  }

  /** Necessity: after any number of pops every member of a blocked set is still queued, as often as
      it was passed in. */
  lemma BlockedStaysQueued(w: World, plugins: seq<Plugin>, failed0: seq<string>, started0: seq<string>, S: set<Plugin>,
      pops: nat)
    requires BlockedSet(w, Init(plugins, failed0, started0), S)
    ensures forall p | p in S ::
        multiset(Run(w, Init(plugins, failed0, started0), pops).queue)[p] == multiset(plugins)[p] > 0
  {
    ReachableIsFaithful(w, plugins, failed0, started0, pops);
    var s0 := Init(plugins, failed0, started0);
    var s := Run(w, s0, pops);
    BlockedNeverDecided(w, s0, s, S, |s.log|);
    forall p | p in S ensures multiset(s.queue)[p] == multiset(plugins)[p] > 0 {
      assert p !in Decided(s.log);
      assert multiset(Decided(s.log))[p] == 0;
      assert (multiset(s.queue) + multiset(Decided(s.log)))[p] == multiset(plugins)[p];
      assert p in s0.queue;
    }
  }

  /** So the loop never ends if a blocked set is not empty and no start raises. */
  lemma BlockedNeverEnds(w: World, plugins: seq<Plugin>, failed0: seq<string>, started0: seq<string>, S: set<Plugin>)
    requires S != {} && BlockedSet(w, Init(plugins, failed0, started0), S)
    requires forall log, p :: !w.starts(log, p).Raised?
    ensures !Terminates(w, Init(plugins, failed0, started0))
  {
    var s0 := Init(plugins, failed0, started0);
    forall pops: nat ensures !Halted(Run(w, s0, pops)) {
      BlockedStaysQueued(w, plugins, failed0, started0, S, pops);
      ReachableIsFaithful(w, plugins, failed0, started0, pops);
      var s := Run(w, s0, pops);
      var p :| p in S;
      assert p in multiset(s.queue);
      if s.aborted {
        assert Justified(w, s0, s.log, |s.log| - 1);
      }
    }
  }

  /** A system that the database still lists but that nobody starts keeps the loop spinning, although
      the method promises to skip a plugin only until its requirements are loaded. */
  lemma StaleRequirementSpins(starts: (seq<Event>, Plugin) -> StartOutcome)
    requires forall log, p :: !starts(log, p).Raised?
    ensures !Terminates(World(["a", "b"], starts), Init([Plugin("a[default]-1", "a", ["b"])], [], []))
  {
    var w, p := World(["a", "b"], starts), Plugin("a[default]-1", "a", ["b"]);
    assert BlockedAt(w, Init([p], [], []), {p}, p, 0);
    BlockedNeverEnds(w, [p], [], [], {p});
  }
}

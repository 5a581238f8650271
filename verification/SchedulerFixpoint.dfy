/** When plugins of one name agree, the outcome of the start loop is a least fixpoint over the
    requirement graph, whatever the order of the input, and it says exactly when the loop ends. */
module SchedulerFixpoint {
  import opened Scheduler
  import opened SchedulerSafety
  import opened SchedulerTermination

  /** Names settled so far. */
  datatype Settled = Settled(started: set<string>, failed: set<string>)

  datatype Fate = Runs | Falls | Waits

  predicate Below(a: Settled, b: Settled) {
    a.started <= b.started && a.failed <= b.failed
  }

  /** No name is both started and failed, except those that were from the beginning. */
  predicate Consistent(base: Settled, x: Settled) {
    Below(base, x) && x.started * x.failed <= base.failed
  }

  function FateOf(w: World, x: Settled, p: Plugin): Fate {
    match Decide(ToSet(w.known), x.failed, x.started, p.requirements)
    case Skip => Waits
    case Fail(_) => Falls
    case Attempt => if w.starts([], p).Started? then Runs else Falls
  }

  /** Same-named plugins share their requirements and the answer of `start_plugin`, which does not
      depend on the history and does not raise; no queued name is settled before the loop. */
  ghost predicate Uniform(w: World, plugins: set<Plugin>, base: Settled) {
    && (forall p, q | p in plugins && q in plugins && p.system == q.system ::
          p.requirements == q.requirements && w.starts([], p) == w.starts([], q))
    && (forall p, log | p in plugins :: w.starts(log, p) == w.starts([], p) && !w.starts(log, p).Raised?)
    && (forall p | p in plugins :: p.system !in base.started && p.system !in base.failed)
  }

  /** One round: settle every plugin whose requirements allow it. */
  function Round(w: World, plugins: set<Plugin>, x: Settled): Settled {
    Settled(x.started + set p | p in plugins && FateOf(w, x, p).Runs? :: p.system,
            x.failed + set p | p in plugins && FateOf(w, x, p).Falls? :: p.system)
  }

  function Names(plugins: set<Plugin>): set<string> {
    set p | p in plugins :: p.system
  }

  lemma NewNamesShrinkRest(names: set<string>, a: set<string>, b: set<string>)
    requires a <= b && b - a <= names && a != b
    ensures names - b < names - a
  {
    assert !(b <= a);
    var n :| n in b && n !in a;
    assert n in b - a;
    assert n in names - a && n !in names - b;
  }

  lemma RoundShrinksRest(w: World, plugins: set<Plugin>, x: Settled)
    requires Round(w, plugins, x) != x
    ensures var names, y := Names(plugins), Round(w, plugins, x);
            || names - y.started < names - x.started
            || (names - y.started == names - x.started && names - y.failed < names - x.failed)
  {
    var names, y := Names(plugins), Round(w, plugins, x);
    assert y.started - x.started <= names && y.failed - x.failed <= names;
    if y.started != x.started {
      NewNamesShrinkRest(names, x.started, y.started);
    } else {
      NewNamesShrinkRest(names, x.failed, y.failed);
    }
  }

  /** Rounds until nothing changes. */
  function Fixpoint(w: World, plugins: set<Plugin>, x: Settled): Settled
    decreases Names(plugins) - x.started, Names(plugins) - x.failed
  {
    if Round(w, plugins, x) == x then x else
      RoundShrinksRest(w, plugins, x);
      Fixpoint(w, plugins, Round(w, plugins, x))
  }

  /** A settled plugin keeps its fate while names are added consistently. */
  lemma FateIsStable(w: World, x: Settled, y: Settled, p: Plugin)
    requires Below(x, y) && y.started * y.failed <= x.failed
    ensures !FateOf(w, x, p).Waits? ==> FateOf(w, y, p) == FateOf(w, x, p)
  {
    DecideMeaning(ToSet(w.known), x.failed, x.started, p.requirements);
    DecideMeaning(ToSet(w.known), y.failed, y.started, p.requirements);
    if Decide(ToSet(w.known), x.failed, x.started, p.requirements).Fail? {
      var k :| FirstFailure(ToSet(w.known), x.failed, x.started, p.requirements, k);
      assert FirstFailure(ToSet(w.known), y.failed, y.started, p.requirements, k);
    }
  }

  /** Every settled name of a plugin was settled according to that plugin's fate. */
  ghost predicate Sound(w: World, plugins: set<Plugin>, base: Settled, x: Settled) {
    && Consistent(base, x)
    && (forall p | p in plugins && p.system in x.started :: FateOf(w, x, p).Runs?)
    && (forall p | p in plugins && p.system in x.failed :: FateOf(w, x, p).Falls?)
    && x.started <= base.started + Names(plugins)
    && x.failed <= base.failed + Names(plugins)
  }

  /** Nothing is left to settle. */
  ghost predicate Closed(w: World, plugins: set<Plugin>, x: Settled) {
    forall p | p in plugins ::
      && (FateOf(w, x, p).Runs? ==> p.system in x.started)
      && (FateOf(w, x, p).Falls? ==> p.system in x.failed)
  }

  lemma SameNameSameFate(w: World, plugins: set<Plugin>, base: Settled, x: Settled, p: Plugin, q: Plugin)
    requires Uniform(w, plugins, base) && p in plugins && q in plugins && p.system == q.system
    ensures FateOf(w, x, p) == FateOf(w, x, q)
  {
  }

  lemma RoundFollowsFate(w: World, plugins: set<Plugin>, base: Settled, x: Settled, p: Plugin)
    requires Uniform(w, plugins, base) && Sound(w, plugins, base, x) && p in plugins
    ensures p.system in Round(w, plugins, x).started ==> FateOf(w, x, p).Runs?
    ensures p.system in Round(w, plugins, x).failed ==> FateOf(w, x, p).Falls?
  {
    var y := Round(w, plugins, x);
    if p.system in y.started - x.started {
      var q :| q in plugins && FateOf(w, x, q).Runs? && q.system == p.system;
      SameNameSameFate(w, plugins, base, x, p, q);
    }
    if p.system in y.failed - x.failed {
      var q :| q in plugins && FateOf(w, x, q).Falls? && q.system == p.system;
      SameNameSameFate(w, plugins, base, x, p, q);
    }
  }

  lemma RoundKeepsSound(w: World, plugins: set<Plugin>, base: Settled, x: Settled)
    requires Uniform(w, plugins, base) && Sound(w, plugins, base, x)
    ensures Sound(w, plugins, base, Round(w, plugins, x))
  {
    var y := Round(w, plugins, x);
    forall p | p in plugins
      ensures p.system in y.started ==> FateOf(w, x, p).Runs?
      ensures p.system in y.failed ==> FateOf(w, x, p).Falls?
    {
      RoundFollowsFate(w, plugins, base, x, p);
    }
    forall n | n in Names(plugins) ensures n !in y.started || n !in y.failed {
      var p :| p in plugins && p.system == n;
    }
    assert y.started * y.failed <= base.failed;
    forall p | p in plugins
      ensures p.system in y.started ==> FateOf(w, y, p).Runs?
      ensures p.system in y.failed ==> FateOf(w, y, p).Falls?
    {
      FateIsStable(w, x, y, p);
    }
  }

  /** The result is sound and closed ... */
  lemma {:induction false} FixpointIsSoundAndClosed(w: World, plugins: set<Plugin>, base: Settled, x: Settled)
    requires Uniform(w, plugins, base) && Sound(w, plugins, base, x)
    ensures Sound(w, plugins, base, Fixpoint(w, plugins, x))
    ensures Closed(w, plugins, Fixpoint(w, plugins, x))
    ensures Below(x, Fixpoint(w, plugins, x))
    decreases Names(plugins) - x.started, Names(plugins) - x.failed
  {
    var y := Round(w, plugins, x);
    if y == x {
      forall p | p in plugins
        ensures FateOf(w, x, p).Runs? ==> p.system in x.started
        ensures FateOf(w, x, p).Falls? ==> p.system in x.failed
      {
        assert FateOf(w, x, p).Runs? ==> p.system in y.started;
        assert FateOf(w, x, p).Falls? ==> p.system in y.failed;
      }
    } else {
      RoundKeepsSound(w, plugins, base, x);
      RoundShrinksRest(w, plugins, x);
      FixpointIsSoundAndClosed(w, plugins, base, y);
    }
  }

  /** ... and below every other consistent closed assignment. */
  lemma {:induction false} FixpointIsLeast(w: World, plugins: set<Plugin>, base: Settled, x: Settled, z: Settled)
    requires Consistent(base, z) && Closed(w, plugins, z) && Below(base, x) && Below(x, z)
    ensures Below(Fixpoint(w, plugins, x), z)
    decreases Names(plugins) - x.started, Names(plugins) - x.failed
  {
    var y := Round(w, plugins, x);
    if y != x {
      forall p | p in plugins && !FateOf(w, x, p).Waits?
        ensures FateOf(w, z, p) == FateOf(w, x, p)
      {
        FateIsStable(w, x, z, p);
      }
      assert Below(y, z);
      RoundShrinksRest(w, plugins, x);
      FixpointIsLeast(w, plugins, base, y, z);
    }
  }

  // ----- the loop against the fixpoint -----

  function PluginSet(plugins: seq<Plugin>): set<Plugin> {
    set p | p in plugins
  }

  function SettledBy(s: State): Settled {
    Settled(ToSet(s.started), ToSet(s.failed))
  }

  /** The assignment the loop is compared with. */
  function Goal(w: World, s0: State): Settled {
    Fixpoint(w, PluginSet(s0.queue), SettledBy(s0))
  }

  ghost predicate UniformInput(w: World, s0: State) {
    Uniform(w, PluginSet(s0.queue), SettledBy(s0))
  }

  /** A decided plugin has its name where its fate says. */
  ghost predicate Tracks(w: World, s0: State, s: State) {
    && !s.aborted
    && PluginSet(s.queue) <= PluginSet(s0.queue)
    && Below(SettledBy(s0), SettledBy(s))
    && Below(SettledBy(s), Goal(w, s0))
    && forall p | p in s0.queue && p !in s.queue ::
         || (FateOf(w, SettledBy(s), p).Runs? && p.system in s.started)
         || (FateOf(w, SettledBy(s), p).Falls? && p.system in s.failed)
  }

  lemma GoalIsSound(w: World, s0: State)
    requires UniformInput(w, s0)
    ensures Sound(w, PluginSet(s0.queue), SettledBy(s0), Goal(w, s0)) && Closed(w, PluginSet(s0.queue), Goal(w, s0))
    ensures Below(SettledBy(s0), Goal(w, s0))
  {
    FixpointIsSoundAndClosed(w, PluginSet(s0.queue), SettledBy(s0), SettledBy(s0));
  }

  /** A decision puts the name where the fate of the plugin says, which is where the fixpoint has it. */
  lemma DecisionFollowsFate(w: World, s0: State, s: State)
    requires UniformInput(w, s0) && Tracks(w, s0, s) && !Halted(s)
    requires !VerdictOn(w, s, s.queue[|s.queue| - 1]).Skip?
    ensures var p, x, y := s.queue[|s.queue| - 1], SettledBy(s), SettledBy(Step(w, s));
            && !Step(w, s).aborted
            && (FateOf(w, x, p).Runs? ==> y == x.(started := x.started + {p.system}))
            && (FateOf(w, x, p).Falls? ==> y == x.(failed := x.failed + {p.system}))
            && Below(x, y) && Below(y, Goal(w, s0)) && y.started * y.failed <= x.failed
  {
    GoalIsSound(w, s0);
    var p, x := s.queue[|s.queue| - 1], SettledBy(s);
    assert p in PluginSet(s.queue) && p in PluginSet(s0.queue);
    assert w.starts(s.log, p) == w.starts([], p);
    FateIsStable(w, x, Goal(w, s0), p);
  }

  lemma StepKeepsTracking(w: World, s0: State, s: State)
    requires UniformInput(w, s0) && Tracks(w, s0, s) && !Halted(s)
    ensures Tracks(w, s0, Step(w, s))
  {
    var p, rest, s' := s.queue[|s.queue| - 1], s.queue[..|s.queue| - 1], Step(w, s);
    assert s.queue == rest + [p];
    if VerdictOn(w, s, p).Skip? {
      assert PluginSet(s'.queue) == PluginSet(s.queue);
    } else {
      DecisionFollowsFate(w, s0, s);
      forall q | q in s0.queue && q !in s'.queue
        ensures (FateOf(w, SettledBy(s'), q).Runs? && q.system in s'.started)
                || (FateOf(w, SettledBy(s'), q).Falls? && q.system in s'.failed)
      {
        FateIsStable(w, SettledBy(s), SettledBy(s'), q);
        assert q == p || q !in s.queue;
      }
    }
  }

  lemma {:induction false} RunKeepsTracking(w: World, s0: State, s: State, pops: nat)
    requires UniformInput(w, s0) && Tracks(w, s0, s)
    ensures Tracks(w, s0, Run(w, s, pops))
    decreases pops
  {
    if pops != 0 && !Halted(s) {
      StepKeepsTracking(w, s0, s);
      RunKeepsTracking(w, s0, Step(w, s), pops - 1);
    }
  }

  lemma ReachableTracks(w: World, plugins: seq<Plugin>, failed0: seq<string>, started0: seq<string>, pops: nat)
    requires UniformInput(w, Init(plugins, failed0, started0))
    ensures var s0 := Init(plugins, failed0, started0); Tracks(w, s0, Run(w, s0, pops))
  {
    var s0 := Init(plugins, failed0, started0);
    GoalIsSound(w, s0);
    RunKeepsTracking(w, s0, s0, pops);
  }

  /** A loop that ends has started and failed exactly what the least fixpoint says. */
  lemma EndsAtFixpoint(w: World, plugins: seq<Plugin>, failed0: seq<string>, started0: seq<string>, pops: nat)
    requires var s0 := Init(plugins, failed0, started0); UniformInput(w, s0) && Halted(Run(w, s0, pops))
    ensures var s0 := Init(plugins, failed0, started0); SettledBy(Run(w, s0, pops)) == Goal(w, s0)
  {
    var s0 := Init(plugins, failed0, started0);
    var s := Run(w, s0, pops);
    ReachableTracks(w, plugins, failed0, started0, pops);
    GoalIsSound(w, s0);
    assert Closed(w, PluginSet(plugins), SettledBy(s));
    FixpointIsLeast(w, PluginSet(plugins), SettledBy(s0), SettledBy(s0), SettledBy(s));
  }

  /** A state in which every queued plugin would be put back has already reached the fixpoint. */
  lemma StuckAtFixpoint(w: World, s0: State, s: State)
    requires UniformInput(w, s0) && Tracks(w, s0, s) && !CanDecide(w, s)
    ensures Below(Goal(w, s0), SettledBy(s))
    ensures forall p | p in s.queue :: p in s0.queue && FateOf(w, Goal(w, s0), p).Waits?
    ensures s.queue != [] ==> exists p :: p in s0.queue && FateOf(w, Goal(w, s0), p).Waits?
  {
    GoalIsSound(w, s0);
    forall p | p in s.queue ensures FateOf(w, SettledBy(s), p).Waits? {
      var k :| 0 <= k < |s.queue| && s.queue[k] == p;
      assert !Decidable(w, s, s.queue[k]);
    }
    assert Closed(w, PluginSet(s0.queue), SettledBy(s));
    FixpointIsLeast(w, PluginSet(s0.queue), SettledBy(s0), SettledBy(s0), SettledBy(s));
    assert Goal(w, s0) == SettledBy(s);
    forall p | p in s.queue ensures p in s0.queue {
      assert p in PluginSet(s.queue);
    }
    if s.queue != [] {
      assert s.queue[0] in s.queue;
    }
  }

  /** Exact termination: the loop ends if and only if the least fixpoint leaves no queued plugin
      waiting, and then it ends within n(n+1)/2 pops. */
  lemma TerminatesExactlyWhenSettled(w: World, plugins: seq<Plugin>, failed0: seq<string>, started0: seq<string>)
    requires UniformInput(w, Init(plugins, failed0, started0))
    ensures var s0, n := Init(plugins, failed0, started0), |plugins|;
            && (Terminates(w, s0) <==> forall p | p in plugins :: !FateOf(w, Goal(w, s0), p).Waits?)
            && (Terminates(w, s0) ==> Halted(Run(w, s0, n * (n + 1) / 2)))
  {
    var s0 := Init(plugins, failed0, started0);
    if Terminates(w, s0) {
      var pops: nat :| Halted(Run(w, s0, pops));
      ReachableTracks(w, plugins, failed0, started0, pops);
      EndsAtFixpoint(w, plugins, failed0, started0, pops);
    }
    if forall p | p in plugins :: !FateOf(w, Goal(w, s0), p).Waits? {
      forall pops: nat ensures var s := Run(w, s0, pops); Halted(s) || CanDecide(w, s) {
        var s := Run(w, s0, pops);
        ReachableTracks(w, plugins, failed0, started0, pops);
        if !CanDecide(w, s) {
          StuckAtFixpoint(w, s0, s);
        }
      }
      ProgressiveEnds(w, s0);
      TriangleClosedForm(|plugins|);
    }
  }

  /** Order independence: of two loops over the same plugins, in any order and with any repetitions,
      both end or neither does, and when they end they have started the same systems and failed the
      same systems. */
  lemma OrderIndependence(w: World, plugins: seq<Plugin>, plugins': seq<Plugin>, failed0: seq<string>,
      started0: seq<string>)
    requires PluginSet(plugins) == PluginSet(plugins')
    requires UniformInput(w, Init(plugins, failed0, started0))
    ensures var s0, s0' := Init(plugins, failed0, started0), Init(plugins', failed0, started0);
            && (Terminates(w, s0) <==> Terminates(w, s0'))
            && forall m: nat, n: nat | Halted(Run(w, s0, m)) && Halted(Run(w, s0', n)) ::
                 SettledBy(Run(w, s0, m)) == SettledBy(Run(w, s0', n))
  {
    var s0, s0' := Init(plugins, failed0, started0), Init(plugins', failed0, started0);
    TerminatesExactlyWhenSettled(w, plugins, failed0, started0);
    TerminatesExactlyWhenSettled(w, plugins', failed0, started0);
    assert forall p :: p in plugins <==> p in PluginSet(plugins);
    assert forall p :: p in plugins' <==> p in PluginSet(plugins');
    forall m: nat, n: nat | Halted(Run(w, s0, m)) && Halted(Run(w, s0', n))
      ensures SettledBy(Run(w, s0, m)) == SettledBy(Run(w, s0', n))
    {
      EndsAtFixpoint(w, plugins, failed0, started0, m);
      EndsAtFixpoint(w, plugins', failed0, started0, n);
    }
  }

  /** Without this uniformity the order can matter. Here a queued name runs already: "a" fails because its
      requirement is unknown, and "b", which requires "a", is started or fails depending on whether it
      is popped before or after "a". */
  lemma OrderCanMatter(starts: (seq<Event>, Plugin) -> StartOutcome)
    requires forall log, p :: starts(log, p).Started?
    ensures var a, b := Plugin("a[default]-1", "a", ["x"]), Plugin("b[default]-1", "b", ["a"]);
            var w := World(["a", "b"], starts);
            var s, s' := Run(w, Init([a, b], [], ["a"]), 2), Run(w, Init([b, a], [], ["a"]), 2);
            Halted(s) && Halted(s') && s.failed == ["a"] && s'.failed == ["a", "b"]
  {
    var a, b := Plugin("a[default]-1", "a", ["x"]), Plugin("b[default]-1", "b", ["a"]);
    var w := World(["a", "b"], starts);
    var s0, s0' := Init([a, b], [], ["a"]), Init([b, a], [], ["a"]);
    assert ["a"][1..] == [] && [a, b][..1] == [a] && [b, a][..1] == [b] && [a][..0] == [] && [b][..0] == [];
    assert ["a", "b"][0] == "a" && ["a"][0] == "a";
    assert Decide(ToSet(["a", "b"]), ToSet([]), ToSet(["a"]), ["a"]) == Attempt by {
      assert "a" in ["a", "b"] && "a" in ["a"];
    }
    assert VerdictOn(w, s0, b) == Attempt;
    var s1, s1' := Step(w, s0), Step(w, s0');
    assert s1.queue == [a] && s1.failed == [];
    assert s1'.queue == [b] && s1'.failed == ["a"];
    var s2, s2' := Step(w, s1), Step(w, s1');
    assert s2.queue == [] && s2.failed == ["a"];
    assert s2'.queue == [] && s2'.failed == ["a", "b"];
    assert Run(w, s1, 1) == Run(w, s2, 0) && Run(w, s1', 1) == Run(w, s2', 0);
  }
}

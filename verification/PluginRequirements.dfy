/** The requirement check that ends the loading of plugins, and what it means for the start loop that
    follows it. */
module PluginRequirements {
  import Scheduler
  import SchedulerTermination
  import SchedulerExactness
  import SchedulerFixpoint
  import PluginConfig
  import opened Registry
  import opened PluginLoader

  predicate Satisfied(s: Spec, names: set<string>) {
    forall i | 0 <= i < |s.requirements| :: s.requirements[i] in names
  }

  function Satisfiable(specs: seq<Spec>, names: set<string>): seq<Spec> {
    if specs == [] then [] else
      (if Satisfied(specs[0], names) then [specs[0]] else []) + Satisfiable(specs[1..], names)
  }

  /** What is left of the registry after the check. */
  function Checked(specs: seq<Spec>): seq<Spec> {
    Satisfiable(specs, SystemsOf(specs))
  }

  /** Every requirement is a system of the registry. */
  predicate Closed(specs: seq<Spec>) {
    forall i | 0 <= i < |specs| :: Satisfied(specs[i], SystemsOf(specs))
  }

  // ----- the check removes exactly the unsatisfied runners -----

  lemma {:induction false} MissingMeaning(s: Spec, names: set<string>, n: nat)
    requires n <= |s.requirements|
    ensures forall name :: name in Missing(s, names, n) <==>
              name == s.uniqueName && exists i :: 0 <= i < n && s.requirements[i] !in names
  {
    if n > 0 {
      MissingMeaning(s, names, n - 1);
    }
  }

  lemma MissingMeansUnsatisfied(s: Spec, names: set<string>, name: string)
    ensures name in Missing(s, names, |s.requirements|) <==> name == s.uniqueName && !Satisfied(s, names)
  {
    MissingMeaning(s, names, |s.requirements|);
  }

  /** Some runner of that name has a requirement that is not among the names. */
  predicate Drops(specs: seq<Spec>, names: set<string>, name: string) {
    exists s :: s in specs && s.uniqueName == name && !Satisfied(s, names)
  }

  lemma {:induction false} UnsatisfiedMeaning(specs: seq<Spec>, names: set<string>, name: string)
    ensures name in Unsatisfied(specs, names) <==> Drops(specs, names, name)
  {
    if specs != [] {
      var init, last := specs[..|specs| - 1], specs[|specs| - 1];
      assert specs == init + [last];
      UnsatisfiedMeaning(init, names, name);
      MissingMeansUnsatisfied(last, names, name);
    }
  }

  lemma {:induction false} WithoutUnsatisfied(specs: seq<Spec>, removed: set<string>, names: set<string>)
    requires forall i | 0 <= i < |specs| :: specs[i].uniqueName in removed <==> !Satisfied(specs[i], names)
    ensures WithoutNames(specs, removed) == Satisfiable(specs, names)
  {
    if specs != [] {
      assert forall i | 0 <= i < |specs[1..]| :: specs[1..][i] == specs[i + 1];
      WithoutUnsatisfied(specs[1..], removed, names);
    }
  }

  lemma RegisteredSystem(specs: seq<Spec>, name: string)
    ensures name in SystemsOf(specs) <==> exists t :: t in specs && t.system == name
  {
    if t :| t in specs && t.system == name {
      var i :| 0 <= i < |specs| && specs[i] == t;
    }
    if i :| 0 <= i < |specs| && specs[i].system == name {
      assert specs[i] in specs;
    }
  }

  lemma CheckedMeaning(specs: seq<Spec>)
    ensures forall s :: s in Checked(specs) <==>
              s in specs && forall r | r in s.requirements :: exists t :: t in specs && t.system == r
  {
    var names := SystemsOf(specs);
    SatisfiableMeaning(specs, names);
    forall name ensures name in names <==> exists t :: t in specs && t.system == name {
      RegisteredSystem(specs, name);
    }
    forall s ensures Satisfied(s, names) <==> forall r | r in s.requirements :: r in names {
      if Satisfied(s, names) {
        forall r | r in s.requirements ensures r in names {
          var i :| 0 <= i < |s.requirements| && s.requirements[i] == r;
        }
      }
    }
  }

  /** When names are distinct, the check keeps exactly the runners all of whose requirements were
      registered before it, in their order. */
  lemma CheckKeepsExactlySatisfied(specs: seq<Spec>)
    requires DistinctNames(specs)
    ensures RemovedAll(specs, Unsatisfied(specs, SystemsOf(specs))) == Checked(specs)
    ensures forall s :: s in Checked(specs) <==>
              s in specs && forall r | r in s.requirements :: exists t :: t in specs && t.system == r
  {
    CheckedMeaning(specs);
    var names := SystemsOf(specs);
    var removed := Unsatisfied(specs, names);
    RemovedAllIsWithout(specs, removed);
    forall i | 0 <= i < |specs| ensures specs[i].uniqueName in NameSet(removed) <==> !Satisfied(specs[i], names) {
      UnsatisfiedMeaning(specs, names, specs[i].uniqueName);
      if s :| s in specs && s.uniqueName == specs[i].uniqueName && !Satisfied(s, names) {
        var j :| 0 <= j < |specs| && specs[j] == s;
        assert i == j;
      }
    }
    WithoutUnsatisfied(specs, NameSet(removed), names);
  }

  // ----- the check promises that requirements can be satisfied -----

  lemma {:induction false} SatisfiableMeaning(specs: seq<Spec>, names: set<string>)
    ensures forall s :: s in Satisfiable(specs, names) <==> s in specs && Satisfied(s, names)
  {
    if specs != [] {
      SatisfiableMeaning(specs[1..], names);
      assert specs == [specs[0]] + specs[1..];
    }
  }

  /** Some runner of that system survives the check. */
  predicate Survives(specs: seq<Spec>, system: string) {
    exists t :: t in specs && t.system == system && Satisfied(t, SystemsOf(specs))
  }

  lemma SurvivingSystems(specs: seq<Spec>, system: string)
    ensures system in SystemsOf(Checked(specs)) <==> Survives(specs, system)
  {
    var checked := Checked(specs);
    SatisfiableMeaning(specs, SystemsOf(specs));
    if Survives(specs, system) {
      var t :| t in specs && t.system == system && Satisfied(t, SystemsOf(specs));
      var i :| 0 <= i < |checked| && checked[i] == t;
      assert checked[i].system == system;
    }
    if system in SystemsOf(checked) {
      var i :| 0 <= i < |checked| && checked[i].system == system;
      assert checked[i] in checked;
    }
  }

  /** The check is meant to leave only runners whose requirements can be satisfied. It is a single pass,
      so it does exactly when no surviving runner requires a system all of whose runners are removed. */
  lemma OnePassIsEnoughExactly(specs: seq<Spec>)
    ensures Closed(Checked(specs)) <==>
              forall s, r | s in specs && Satisfied(s, SystemsOf(specs)) && r in s.requirements :: Survives(specs, r)
  {
    var checked := Checked(specs);
    SatisfiableMeaning(specs, SystemsOf(specs));
    forall r ensures r in SystemsOf(checked) <==> Survives(specs, r) {
      SurvivingSystems(specs, r);
    }
    if Closed(checked) {
      forall s, r | s in specs && Satisfied(s, SystemsOf(specs)) && r in s.requirements ensures Survives(specs, r) {
        assert s in checked;
        var i :| 0 <= i < |checked| && checked[i] == s;
        assert Satisfied(checked[i], SystemsOf(checked));
      }
    }
    if forall s, r | s in specs && Satisfied(s, SystemsOf(specs)) && r in s.requirements :: Survives(specs, r) {
      forall i | 0 <= i < |checked| ensures Satisfied(checked[i], SystemsOf(checked)) {
        assert checked[i] in checked;
        forall k | 0 <= k < |checked[i].requirements| ensures checked[i].requirements[k] in SystemsOf(checked) {
          assert checked[i].requirements[k] in checked[i].requirements;
        }
      }
    }
  }

  // ----- starting what the check has left -----

  function ToStart(specs: seq<Spec>): seq<Scheduler.Plugin> {
    seq(|specs|, i requires 0 <= i < |specs| =>
          Scheduler.Plugin(specs[i].uniqueName, specs[i].system, specs[i].requirements))
  }

  predicate SystemsAgree(specs: seq<Spec>) {
    forall s, t | s in specs && t in specs && s.system == t.system :: s.requirements == t.requirements
  }

  lemma ProvidedIsRegistered(specs: seq<Spec>, failed: seq<string>, running: seq<string>, system: string)
    ensures SchedulerTermination.Provided(Scheduler.Init(ToStart(specs), failed, running), system)
        <==> system in SystemsOf(specs)
  {
    var queue := ToStart(specs);
    if q :| q in queue && q.system == system {
      var i :| 0 <= i < |queue| && queue[i] == q;
      assert specs[i].system == system;
    }
    if system in SystemsOf(specs) {
      var i :| 0 <= i < |specs| && specs[i].system == system;
      assert queue[i] in queue && queue[i].system == system;
    }
  }

  /** Every requirement runs already or is a system of the registry. */
  ghost predicate Supplied(specs: seq<Spec>, running: seq<string>) {
    forall s, r | s in specs && r in s.requirements :: r in running || r in SystemsOf(specs)
  }

  lemma CoveredIsSupplied(w: Scheduler.World, specs: seq<Spec>, failed: seq<string>, running: seq<string>)
    requires forall s, r | s in specs && r in s.requirements :: r in w.known && r !in failed
    ensures SchedulerTermination.Covered(w, Scheduler.Init(ToStart(specs), failed, running))
        <==> Supplied(specs, running)
  {
    var queue, s0 := ToStart(specs), Scheduler.Init(ToStart(specs), failed, running);
    forall r ensures SchedulerTermination.Provided(s0, r) <==> r in SystemsOf(specs) {
      ProvidedIsRegistered(specs, failed, running, r);
    }
    if SchedulerTermination.Covered(w, s0) {
      forall s, r | s in specs && r in s.requirements && r !in running ensures r in SystemsOf(specs) {
        var i :| 0 <= i < |specs| && specs[i] == s;
        assert queue[i] in s0.queue && queue[i].requirements == s.requirements;
        assert SchedulerTermination.Blocking(w, s0, r);
      }
    }
    if Supplied(specs, running) {
      forall p, r | p in s0.queue && r in p.requirements && SchedulerTermination.Blocking(w, s0, r)
        ensures SchedulerTermination.Provided(s0, r)
      {
        var i :| 0 <= i < |queue| && queue[i] == p;
        assert specs[i] in specs;
      }
    }
  }

  /** Starting up: when the database lists every system that was loaded, no surviving runner requires a
      system that has failed, and no start raises, the start loop after the requirement check ends if
      and only if every requirement of a surviving runner runs already or belongs to a surviving
      runner, and none of them requires itself through others that have to be started. */
  lemma StartUpEndsExactly(w: Scheduler.World, specs: seq<Spec>, failed: seq<string>, running: seq<string>)
    requires SystemsAgree(specs)
    requires forall name | name in SystemsOf(specs) :: name in w.known
    requires forall s, r | s in Checked(specs) && r in s.requirements :: r !in failed
    requires forall log, p :: w.starts(log, p).Started?
    ensures var s0 := Scheduler.Init(ToStart(Checked(specs)), failed, running);
            Scheduler.Terminates(w, s0) <==> Supplied(Checked(specs), running) && SchedulerTermination.Acyclic(w, s0)
  {
    var checked := Checked(specs);
    var queue, s0 := ToStart(checked), Scheduler.Init(ToStart(checked), failed, running);
    SatisfiableMeaning(specs, SystemsOf(specs));
    forall s, r | s in checked && r in s.requirements ensures r in w.known {
      assert Satisfied(s, SystemsOf(specs));
    }
    CoveredIsSupplied(w, checked, failed, running);
    forall p | p in s0.queue
        ensures exists s :: s in checked && s.system == p.system && s.requirements == p.requirements
    {
      var i :| 0 <= i < |queue| && queue[i] == p;
      assert checked[i] in checked;
    }
    SchedulerExactness.EndsExactlyWhenAcyclic(w, queue, failed, running);
  }

  /** Also with failed systems: as long as no surviving runner belongs to a system that runs or has failed
      already, the start loop ends if and only if the least fixpoint over the requirements leaves no
      surviving runner waiting. */
  lemma StartUpSettlesExactly(w: Scheduler.World, specs: seq<Spec>, failed: seq<string>, running: seq<string>)
    requires SystemsAgree(specs)
    requires forall name | name in SystemsOf(Checked(specs)) :: name !in failed && name !in running
    requires forall log, p :: w.starts(log, p).Started?
    ensures var s0 := Scheduler.Init(ToStart(Checked(specs)), failed, running);
            Scheduler.Terminates(w, s0) <==>
              forall p | p in s0.queue :: !SchedulerFixpoint.FateOf(w, SchedulerFixpoint.Goal(w, s0), p).Waits?
  {
    var checked := Checked(specs);
    var queue, s0 := ToStart(checked), Scheduler.Init(ToStart(checked), failed, running);
    SatisfiableMeaning(specs, SystemsOf(specs));
    forall p | p in s0.queue
      ensures exists s :: s in checked && s.system == p.system && s.requirements == p.requirements
      ensures p.system in SystemsOf(checked)
    {
      var i :| 0 <= i < |queue| && queue[i] == p;
      assert checked[i] in checked && checked[i].system == p.system;
    }
    assert SchedulerFixpoint.UniformInput(w, s0);
    SchedulerFixpoint.TerminatesExactlyWhenSettled(w, queue, failed, running);
  }

  /** The single pass is not enough for a chain: "c" is missing, so "b" is removed, but "a", which
      requires "b", stays, and the start loop after it never ends. */
  lemma ChainIsMissed(starts: (seq<Scheduler.Event>, Scheduler.Plugin) -> Scheduler.StartOutcome)
    requires forall log, p :: starts(log, p).Started?
    ensures var a, b := MakeSpec("a", "1", "default", 0, "/a", PluginConfig.NoArgs, ["b"]),
        MakeSpec("b", "1", "default", 1, "/b", PluginConfig.NoArgs, ["c"]);
            && Checked([a, b]) == [a]
            && !Scheduler.Terminates(Scheduler.World(["a", "b"], starts), Scheduler.Init(ToStart([a]), [], []))
  {
    var a, b := MakeSpec("a", "1", "default", 0, "/a", PluginConfig.NoArgs, ["b"]),
        MakeSpec("b", "1", "default", 1, "/b", PluginConfig.NoArgs, ["c"]);
    var specs, w := [a, b], Scheduler.World(["a", "b"], starts);
    assert SystemsOf(specs) == {"a", "b"} by {
      assert specs[0].system == "a" && specs[1].system == "b";
    }
    assert specs[1..] == [b] && [b][1..] == [];
    assert Satisfied(a, {"a", "b"}) && !Satisfied(b, {"a", "b"}) by {
      assert b.requirements[0] == "c";
    }
    assert Satisfiable([b], {"a", "b"}) == [];
    assert Checked(specs) == [a] + [] == [a];
    assert !Supplied([a], []) by {
      assert a.requirements[0] == "b";
      assert a in [a] && "b" in a.requirements;
      assert "b" !in SystemsOf([a]);
    }
    StartUpEndsExactly(w, specs, [], []);
  }
}

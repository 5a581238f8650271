/** One uninterrupted pass of LocalPluginMonitor, with process states frozen. */
module PluginMonitor {
  import opened Registry
  import opened PluginsManager

  datatype Fate = Leave | Restart | Bury

  /** What the monitor does about a runner: nothing unless its process has exited and nobody asked it
      to stop; then it restarts the one that was running and gives up the one that was starting. */
  function FateIn(statuses: map<nat, Status>, crashed: bool, record: nat): Fate {
    if !crashed || record !in statuses then Leave
    else match statuses[record]
      case RUNNING => Restart
      case STARTING => Bury
      case _ => Leave
  }

  function FateOf(db: Database, p: Runner): Fate
    reads db, p
  {
    FateIn(db.statuses, p.process == Exited && !p.stopFlag, p.spec.record)
  }

  /** The fates are those of the runners in their present states. */
  ghost predicate Frozen(all: seq<Runner>, fates: seq<Fate>, statuses: map<nat, Status>)
    reads all
  {
    |all| == |fates| && forall i | 0 <= i < |all| ::
      fates[i] == FateIn(statuses, all[i].process == Exited && !all[i].stopFlag, all[i].spec.record)
  }

  ghost function ReadFates(all: seq<Runner>, statuses: map<nat, Status>): (fates: seq<Fate>)
    reads all
    ensures Frozen(all, fates, statuses)
  {
    seq(|all|, i requires 0 <= i < |all| reads all =>
      FateIn(statuses, all[i].process == Exited && !all[i].stopFlag, all[i].spec.record))
  }

  /** What has become of the first runners of a snapshot. */
  datatype Pass = Pass(kept: seq<Runner>, replaced: seq<Runner>, statuses: map<nat, Status>)

  function PassAfter(all: seq<Runner>, fates: seq<Fate>, statuses: map<nat, Status>, n: nat): Pass
    requires n <= |all| == |fates|
  {
    if n == 0 then Pass([], [], statuses) else
      var before, p := PassAfter(all, fates, statuses, n - 1), all[n - 1];
      match fates[n - 1]
      case Leave => before.(kept := before.kept + [p])
      case Bury => before.(kept := before.kept + [p], statuses := before.statuses[p.spec.record := DEAD])
      case Restart => before.(replaced := before.replaced + [p], statuses := before.statuses[p.spec.record := STARTING])
  }

  /** Fresh runners stand in for the replaced ones, in the same order. */
  ghost predicate StandIns(started: seq<Runner>, replaced: seq<Runner>)
    reads started
  {
    |started| == |replaced| && forall i | 0 <= i < |started| ::
      started[i].spec == replaced[i].spec && !started[i].stopFlag && started[i].process == NotLaunched
  }

  // ----- what a pass means -----

  lemma SpecsAppend(a: seq<Runner>, b: seq<Runner>)
    ensures Specs(a + b) == Specs(a) + Specs(b)
  {
  }

  /** Kept and replaced runners together are the inspected ones. */
  lemma {:induction false} NothingIsLost(all: seq<Runner>, fates: seq<Fate>, statuses: map<nat, Status>, n: nat)
    requires n <= |all| == |fates|
    ensures var pass := PassAfter(all, fates, statuses, n);
            && |pass.kept| + |pass.replaced| == n
            && forall p :: p in pass.kept || p in pass.replaced <==> p in all[..n]
  {
    if n > 0 {
      NothingIsLost(all, fates, statuses, n - 1);
      assert all[..n] == all[..n - 1] + [all[n - 1]];
    }
  }

  /** The runners whose fate it is are replaced; the others stay in the registry. */
  lemma {:induction false} FateDecides(all: seq<Runner>, fates: seq<Fate>, statuses: map<nat, Status>, n: nat, i: nat)
    requires WellFormed(all) && i < n <= |all| == |fates|
    ensures all[i] in PassAfter(all, fates, statuses, n).replaced <==> fates[i] == Restart
    ensures all[i] in PassAfter(all, fates, statuses, n).kept <==> fates[i] != Restart
  {
    var p, before := all[n - 1], PassAfter(all, fates, statuses, n - 1);
    if i < n - 1 {
      assert all[i] != p by {
        assert all[i].spec.record != all[n - 1].spec.record;
      }
      FateDecides(all, fates, statuses, n - 1, i);
    } else {
      NothingIsLost(all, fates, statuses, n - 1);
      assert p !in all[..n - 1] by {
        assert forall j | 0 <= j < n - 1 :: all[j].spec.record != all[n - 1].spec.record;
      }
    }
  }

  /** Exactly the inspected runners whose process has exited, which nobody asked to stop and whose
      status is RUNNING are replaced; the others stay in the registry. */
  lemma WhoIsReplaced(all: seq<Runner>, fates: seq<Fate>, statuses: map<nat, Status>, n: nat, i: nat)
    requires WellFormed(all) && Frozen(all, fates, statuses) && i < n <= |all|
    ensures var p, pass := all[i], PassAfter(all, fates, statuses, n);
            var crashed := p.process == Exited && !p.stopFlag && p.spec.record in statuses
                && statuses[p.spec.record] == RUNNING;
            (p in pass.replaced <==> crashed) && (p in pass.kept <==> !crashed)
  {
    FateDecides(all, fates, statuses, n, i);
  }

  lemma InSpecs(plugins: seq<Runner>, s: Spec)
    ensures s in Specs(plugins) <==> exists p :: p in plugins && p.spec == s
  {
    if s in Specs(plugins) {
      var i :| 0 <= i < |plugins| && Specs(plugins)[i] == s;
      assert plugins[i] in plugins;
    }
    if p :| p in plugins && p.spec == s {
      var i :| 0 <= i < |plugins| && plugins[i] == p;
      assert Specs(plugins)[i] == s;
    }
  }

  /** A pass keeps the number of runners and their specs, and so their unique names. */
  lemma PassKeepsNames(all: seq<Runner>, fates: seq<Fate>, statuses: map<nat, Status>, n: nat, started: seq<Runner>)
    requires n <= |all| == |fates| && StandIns(started, PassAfter(all, fates, statuses, n).replaced)
    ensures var after := PassAfter(all, fates, statuses, n).kept + all[n..] + started;
            |after| == |all| && forall s :: s in Specs(after) <==> s in Specs(all)
  {
    var pass := PassAfter(all, fates, statuses, n);
    var after := pass.kept + all[n..] + started;
    NothingIsLost(all, fates, statuses, n);
    SpecsAppend(pass.kept + all[n..], started);
    SpecsAppend(pass.kept, all[n..]);
    SpecsAppend(all[..n], all[n..]);
    assert all[..n] + all[n..] == all;
    assert Specs(started) == Specs(pass.replaced);
    assert Specs(after) == Specs(pass.kept) + Specs(all[n..]) + Specs(pass.replaced);
    assert Specs(all) == Specs(all[..n]) + Specs(all[n..]);
    forall s ensures s in Specs(after) <==> s in Specs(all) {
      InSpecs(pass.kept, s);
      InSpecs(pass.replaced, s);
      InSpecs(all[..n], s);
    }
  }

  /** So a pass leaves a registry that the next pass can begin with. */
  lemma PassKeepsWellFormed(all: seq<Runner>, fates: seq<Fate>, statuses: map<nat, Status>, n: nat,
      started: seq<Runner>)
    requires n <= |all| == |fates| && StandIns(started, PassAfter(all, fates, statuses, n).replaced)
    requires WellFormed(all) && DistinctNames(Specs(PassAfter(all, fates, statuses, n).kept + all[n..] + started))
    ensures WellFormed(PassAfter(all, fates, statuses, n).kept + all[n..] + started)
  {
    var after := PassAfter(all, fates, statuses, n).kept + all[n..] + started;
    PassKeepsNames(all, fates, statuses, n, started);
    forall i, j | 0 <= i < j < |after| ensures after[i].spec.record != after[j].spec.record {
      var a, b := Specs(after)[i], Specs(after)[j];
      assert a in Specs(all) && b in Specs(all) && a.uniqueName != b.uniqueName;
      var k :| 0 <= k < |all| && Specs(all)[k] == a;
      var m :| 0 <= m < |all| && Specs(all)[m] == b;
      assert k != m;
      assert all[k].spec.record != all[m].spec.record;
    }
  }

  /** Only the records of inspected runners change, as their fates say. */
  lemma {:induction false} StatusesByFate(all: seq<Runner>, fates: seq<Fate>, statuses: map<nat, Status>, n: nat,
      i: nat)
    requires WellFormed(all) && i < |all| == |fates| && n <= |all|
    requires forall j | 0 <= j < |all| && fates[j] != Leave :: all[j].spec.record in statuses
    ensures PassAfter(all, fates, statuses, n).statuses.Keys == statuses.Keys
    ensures all[i].spec.record in statuses ==>
              PassAfter(all, fates, statuses, n).statuses[all[i].spec.record] ==
                if i < n && fates[i] == Restart then STARTING
                else if i < n && fates[i] == Bury then DEAD
                else statuses[all[i].spec.record]
  {
    if n > 0 {
      StatusesByFate(all, fates, statuses, n - 1, i);
      assert i < n - 1 ==> all[i].spec.record != all[n - 1].spec.record;
      assert i > n - 1 ==> all[n - 1].spec.record != all[i].spec.record;
    }
  }

  lemma {:induction false} KeysStay(all: seq<Runner>, fates: seq<Fate>, statuses: map<nat, Status>, n: nat)
    requires n <= |all| && Frozen(all, fates, statuses)
    ensures PassAfter(all, fates, statuses, n).statuses.Keys == statuses.Keys
  {
    if n > 0 {
      KeysStay(all, fates, statuses, n - 1);
    }
  }

  /** Of the inspected runners whose process has exited and which nobody asked to stop, those with the
      status RUNNING end as STARTING and those with STARTING as DEAD; all other statuses stay. */
  lemma PassStatuses(all: seq<Runner>, fates: seq<Fate>, statuses: map<nat, Status>, n: nat, i: nat)
    requires WellFormed(all) && Frozen(all, fates, statuses) && n <= |all| && i < |all|
    ensures PassAfter(all, fates, statuses, n).statuses.Keys == statuses.Keys
    ensures var record, crashed := all[i].spec.record, all[i].process == Exited && !all[i].stopFlag;
            record in statuses ==>
              PassAfter(all, fates, statuses, n).statuses[record] ==
                if i < n && crashed && statuses[record] == RUNNING then STARTING
                else if i < n && crashed && statuses[record] == STARTING then DEAD
                else statuses[record]
  {
    StatusesByFate(all, fates, statuses, n, i);
  }

  lemma AllStatuses(all: seq<Runner>, fates: seq<Fate>, statuses: map<nat, Status>, n: nat)
    requires WellFormed(all) && Frozen(all, fates, statuses) && n <= |all|
    ensures var after := PassAfter(all, fates, statuses, n).statuses;
            && after.Keys == statuses.Keys
            && forall i | 0 <= i < |all| && all[i].spec.record in statuses ::
                 var record, crashed := all[i].spec.record, i < n && all[i].process == Exited && !all[i].stopFlag;
                 after[record] ==
                   if crashed && statuses[record] == RUNNING then STARTING
                   else if crashed && statuses[record] == STARTING then DEAD
                   else statuses[record]
  {
    KeysStay(all, fates, statuses, n);
    forall i | 0 <= i < |all| && all[i].spec.record in statuses
      ensures var record, crashed := all[i].spec.record, i < n && all[i].process == Exited && !all[i].stopFlag;
              PassAfter(all, fates, statuses, n).statuses[record] ==
                if crashed && statuses[record] == RUNNING then STARTING
                else if crashed && statuses[record] == STARTING then DEAD
                else statuses[record]
    {
      PassStatuses(all, fates, statuses, n, i);
    }
  }

  lemma {:induction false} PassLeavesOthers(all: seq<Runner>, fates: seq<Fate>, statuses: map<nat, Status>, n: nat,
      record: nat)
    requires n <= |all| == |fates| && record in statuses
    requires forall i | 0 <= i < n :: all[i].spec.record != record
    ensures record in PassAfter(all, fates, statuses, n).statuses
    ensures PassAfter(all, fates, statuses, n).statuses[record] == statuses[record]
  {
    if n > 0 {
      PassLeavesOthers(all, fates, statuses, n - 1, record);
    }
  }

  /** Inspecting the runners before n does not change what is done about runner n. */
  lemma FateIsFrozen(all: seq<Runner>, fates: seq<Fate>, statuses: map<nat, Status>, n: nat)
    requires WellFormed(all) && Frozen(all, fates, statuses) && n < |all|
    ensures var crashed := all[n].process == Exited && !all[n].stopFlag;
            FateIn(PassAfter(all, fates, statuses, n).statuses, crashed, all[n].spec.record) == fates[n]
  {
    StatusesByFate(all, fates, statuses, n, n);
  }

  lemma PositionOf(plugins: seq<Runner>, k: nat)
    requires DistinctNames(Specs(plugins)) && k < |plugins|
    ensures IndexOf(Specs(plugins), plugins[k].spec.uniqueName) == k
  {
    assert Specs(plugins)[k] == plugins[k].spec;
  }

  lemma ReplacementAt(before: seq<Runner>, plugin: Runner, after: seq<Runner>, current: Runner)
    requires DistinctNames(Specs(before + [plugin] + after)) && current.spec == plugin.spec
    ensures WithReplacement(before + [plugin] + after, current) == before + after + [current]
    ensures DistinctNames(Specs(before + after + [current]))
  {
    var all, k := before + [plugin] + after, |before|;
    PositionOf(all, k);
    assert before == all[..k] && after == all[k + 1..];
    ReplacingKeepsNames(Specs(all), plugin.spec);
    assert Specs(before + after + [current]) == Removed(Specs(all), plugin.spec.uniqueName) + [plugin.spec];
  }

  lemma Regroup(kept: seq<Runner>, all: seq<Runner>, i: nat, started: seq<Runner>)
    requires i < |all|
    ensures kept + all[i..] + started == kept + [all[i]] + (all[i + 1..] + started)
    ensures kept + [all[i]] + (all[i + 1..] + started) == (kept + [all[i]]) + all[i + 1..] + started
  {
  }

  lemma Rejoin(kept: seq<Runner>, rest: seq<Runner>, started: seq<Runner>, p: Runner)
    ensures kept + (rest + started) + [p] == kept + rest + (started + [p])
  {
  }

  // ----- the loop -----

  class LocalPluginMonitor {
    const manager: LocalPluginsManager

    constructor (manager: LocalPluginsManager)
      ensures this.manager == manager
    {
      this.manager := manager;
    }

    /** The body of the loop for one runner of the snapshot. */
    method Inspect(plugin: Runner, ghost before: seq<Runner>, ghost after: seq<Runner>, ghost started: seq<Runner>)
      returns (ghost started': seq<Runner>)
      requires manager.registry.plugins == before + [plugin] + (after + started)
          && DistinctNames(Specs(manager.registry.plugins))
      modifies manager.registry, manager.db`statuses
      ensures DistinctNames(Specs(manager.registry.plugins))
      ensures match old(FateOf(manager.db, plugin))
              case Restart =>
                && (exists p :: fresh(p) && started' == started + [p] && StandIns([p], [plugin]))
                && manager.registry.plugins == before + after + started'
                && manager.db.statuses == old(manager.db.statuses)[plugin.spec.record := STARTING]
              case Bury =>
                && started' == started && unchanged(manager.registry)
                && manager.db.statuses == old(manager.db.statuses)[plugin.spec.record := DEAD]
              case Leave =>
                && started' == started && unchanged(manager.registry) && unchanged(manager.db)
      ensures var crashed, record := old(plugin.process == Exited && !plugin.stopFlag), plugin.spec.record;
              var before := old(manager.db.statuses);
              manager.db.statuses ==
                if crashed && record in before && before[record] == RUNNING then before[record := STARTING]
                else if crashed && record in before && before[record] == STARTING then before[record := DEAD]
                else before
    {
      var registry, db := manager.registry, manager.db;
      started' := started;
      if plugin.process == Exited && !plugin.stopFlag {
        var status := db.StatusOf(plugin.spec.record);
        if status == RUNNING {
          db.SetStatus(plugin.spec.record, DEAD);
          var _, current := manager.RestartPlugin(plugin, UNDISTURBED);
          started' := started + [current];
          ReplacementAt(before, plugin, after + started, current);
          Rejoin(before, after, started, current);
        } else if status == STARTING {
          db.SetStatus(plugin.spec.record, DEAD);
        }
      }
    }

    /** Where a pass stands after n runners of the snapshot. */
    ghost predicate PassState(all: seq<Runner>, fates: seq<Fate>, statuses: map<nat, Status>, n: nat,
        started: seq<Runner>)
      requires n <= |all| == |fates|
      reads manager.registry, manager.db, started
    {
      var pass := PassAfter(all, fates, statuses, n);
      && DistinctNames(Specs(manager.registry.plugins))
      && StandIns(started, pass.replaced)
      && manager.registry.plugins == pass.kept + all[n..] + started
      && manager.db.statuses == pass.statuses
    }

    method InspectNext(all: seq<Runner>, ghost fates: seq<Fate>, ghost statuses: map<nat, Status>, n: nat,
        ghost started: seq<Runner>)
      returns (ghost started': seq<Runner>)
      requires WellFormed(all) && Frozen(all, fates, statuses) && n < |all|
      requires PassState(all, fates, statuses, n, started)
      modifies manager.registry, manager.db`statuses
      ensures forall p | p in started' :: p in started || fresh(p)
      ensures PassState(all, fates, statuses, n + 1, started')
    {
      ghost var pass := PassAfter(all, fates, statuses, n);
      FateIsFrozen(all, fates, statuses, n);
      Regroup(pass.kept, all, n, started);
      started' := Inspect(all[n], pass.kept, all[n + 1..], started);
    }

    /** The loop over the snapshot. */
    method RunPass(all: seq<Runner>, budget: nat, ghost fates: seq<Fate>, ghost statuses: map<nat, Status>)
      returns (index: nat, ghost started: seq<Runner>)
      requires WellFormed(all) && Frozen(all, fates, statuses) && PassState(all, fates, statuses, 0, [])
      modifies manager.registry, manager.db`statuses
      ensures index == if budget < |all| then budget else |all|
      ensures forall p | p in started :: fresh(p)
      ensures PassState(all, fates, statuses, index, started)
    {
      started, index := [], 0;
      while index < |all| && index < budget
        invariant index <= |all| && index <= budget
        invariant Frozen(all, fates, statuses)
        invariant forall p | p in started :: fresh(p)
        invariant PassState(all, fates, statuses, index, started)
      {
        started := InspectNext(all, fates, statuses, index, started);
        index := index + 1;
      }
    }

    /** The pass as a whole: afterwards registry and statuses are those of the pass. */
    method InspectAll(budget: nat) returns (index: nat, ghost started: seq<Runner>, ghost fates: seq<Fate>)
      requires WellFormed(manager.registry.plugins)
      modifies manager.registry, manager.db`statuses
      ensures index == if budget < |old(manager.registry.plugins)| then budget else |old(manager.registry.plugins)|
      ensures old(Frozen(manager.registry.plugins, fates, manager.db.statuses))
      ensures forall p | p in started :: fresh(p)
      ensures PassState(old(manager.registry.plugins), fates, old(manager.db.statuses), index, started)
      ensures WellFormed(manager.registry.plugins)
    {
      ghost var all, statuses := manager.registry.plugins, manager.db.statuses;
      fates := ReadFates(manager.registry.plugins, manager.db.statuses);
      index, started := RunPass(manager.registry.plugins, budget, fates, manager.db.statuses);
      PassKeepsWellFormed(all, fates, statuses, index, started);
    }

    /** monitor(): replaces exactly the crashed runners whose status is RUNNING, by fresh ones with the
        same spec and so the same unique name, and marks the crashed ones whose status is STARTING as
        DEAD. `budget` is the number of runners inspected before the monitor itself is told to stop. */
    method Monitor(budget: nat) returns (index: nat, ghost started: seq<Runner>, ghost fates: seq<Fate>)
      requires WellFormed(manager.registry.plugins)
      modifies manager.registry, manager.db`statuses
      ensures index == if budget < |old(manager.registry.plugins)| then budget else |old(manager.registry.plugins)|
      ensures old(Frozen(manager.registry.plugins, fates, manager.db.statuses))
      ensures forall p | p in started :: fresh(p)
      ensures PassState(old(manager.registry.plugins), fates, old(manager.db.statuses), index, started)
      ensures WellFormed(manager.registry.plugins)
      ensures manager.db.statuses.Keys == old(manager.db.statuses.Keys)
      ensures var all, before, after := old(manager.registry.plugins), old(manager.db.statuses), manager.db.statuses;
              forall i | 0 <= i < |all| && all[i].spec.record in before ::
                var record, crashed := all[i].spec.record, old(all[i].process == Exited && !all[i].stopFlag);
                && record in after
                && (i < index && crashed && before[record] == RUNNING ==> after[record] == STARTING)
                && (i < index && crashed && before[record] == STARTING ==> after[record] == DEAD)
                && (i >= index || !crashed || before[record] !in {RUNNING, STARTING} ==>
                      after[record] == before[record])
    {
      ghost var all, before := manager.registry.plugins, manager.db.statuses;
      index, started, fates := InspectAll(budget);
      KeysStay(all, fates, before, index);
      AllStatuses(all, fates, before, index);
    }

    /** run(): one pass after the other, until the monitor is told to stop after `passes` of them. */
    method Run(passes: nat)
      requires WellFormed(manager.registry.plugins)
      modifies manager.registry, manager.db`statuses
      ensures WellFormed(manager.registry.plugins)
      ensures |manager.registry.plugins| == |old(manager.registry.plugins)|
      ensures forall s :: s in Specs(manager.registry.plugins) <==> s in old(Specs(manager.registry.plugins))
    {
      for i := 0 to passes
        invariant WellFormed(manager.registry.plugins)
        invariant |manager.registry.plugins| == |old(manager.registry.plugins)|
        invariant forall s :: s in Specs(manager.registry.plugins) <==> s in old(Specs(manager.registry.plugins))
      {
        ghost var all, statuses := manager.registry.plugins, manager.db.statuses;
        var index, started, fates := Monitor(|manager.registry.plugins|);
        PassKeepsNames(all, fates, statuses, index, started);
      }
    }
  }
}

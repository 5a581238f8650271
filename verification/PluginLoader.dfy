/** Loading the runners of a system, reloading a system that is registered already, and dropping the
    runners whose requirements nobody registered. */
module PluginLoader {
  import opened Wrappers
  import opened Registry
  import PluginConfig

  /** What the loader reads of a valid configuration, with INSTANCES and PLUGIN_ARGS in normal form. */
  datatype Plugin = Plugin(
    name: string, version: string, instances: seq<string>, pluginArgs: map<string, PluginConfig.Args>, path: string,
    requirements: seq<string>)

  /** What load_plugin finds at a path: a valid configuration, one that the validator rejects, or one
      that raises while it is loaded. */
  datatype Found = Loadable(plugin: Plugin) | Invalid | Raising

  /** What load_plugin returns: the list of runners, or False; or it raises. */
  datatype LoadResult = Plugins(list: seq<Runner>) | NotLoaded | LoadRaised

  datatype ReloadError = NotInRegistry | InvalidConfiguration | RunningInstances | LoadFailed

  /** The record of the first instance of that name; records of a system are created in order. */
  function RecordOf(names: seq<string>, name: string, base: nat): nat {
    if names == [] || names[0] == name then base else RecordOf(names[1..], name, base + 1)
  }

  /** plugin_args.get(instance_name) */
  function ArgsOf(p: Plugin, name: string): PluginConfig.Args {
    if name in p.pluginArgs then p.pluginArgs[name] else PluginConfig.NoArgs
  }

  function SpecFor(p: Plugin, name: string, base: nat): Spec {
    MakeSpec(p.name, p.version, name, RecordOf(p.instances, name, base), p.path, ArgsOf(p, name), p.requirements)
  }

  /** The registry after the first n instances have been registered. */
  function Loaded(specs: seq<Spec>, p: Plugin, base: nat, n: nat): seq<Spec>
    requires n <= |p.instances|
  {
    if n == 0 then specs else Registered(Loaded(specs, p, base, n - 1), SpecFor(p, p.instances[n - 1], base))
  }

  function RemovedAll(specs: seq<Spec>, names: seq<string>): seq<Spec> {
    if names == [] then specs else Removed(RemovedAll(specs, names[..|names| - 1]), names[|names| - 1])
  }

  /** The unique names of the runners of a system. */
  function SystemNames(specs: seq<Spec>, name: string, version: string): seq<string> {
    if specs == [] then [] else
      var last := specs[|specs| - 1];
      SystemNames(specs[..|specs| - 1], name, version) + if OfSystem(last, name, version) then [last.uniqueName] else []
  }

  /** The registry after a reload: the runners of the system are removed, then those of `p` loaded. */
  function Reloaded(specs: seq<Spec>, name: string, version: string, p: Plugin, base: nat): seq<Spec> {
    Loaded(RemovedAll(specs, SystemNames(specs, name, version)), p, base, |p.instances|)
  }

  function UniqueNames(plugins: seq<Runner>): seq<string> {
    seq(|plugins|, i requires 0 <= i < |plugins| => plugins[i].spec.uniqueName)
  }

  /** The unique name, once for each of the first n requirements that is not among the names. */
  function Missing(s: Spec, names: set<string>, n: nat): seq<string>
    requires n <= |s.requirements|
  {
    if n == 0 then [] else Missing(s, names, n - 1) + if s.requirements[n - 1] in names then [] else [s.uniqueName]
  }

  /** What the requirement check removes. */
  function Unsatisfied(specs: seq<Spec>, names: set<string>): seq<string> {
    if specs == [] then [] else
      var last := specs[|specs| - 1];
      Unsatisfied(specs[..|specs| - 1], names) + Missing(last, names, |last.requirements|)
  }

  function Ids(base: nat, n: nat): seq<nat> {
    seq(n, i => base + i)
  }

  function IdSet(ids: seq<nat>): set<nat> {
    set id | id in ids
  }

  function NewRecords(base: nat, n: nat): map<nat, Status> {
    if n == 0 then map[] else NewRecords(base, n - 1)[base + n - 1 := INITIALIZING]
  }

  ghost predicate AnyRunning(db: Database, plugins: seq<Runner>)
    reads db
  {
    exists i :: 0 <= i < |plugins| && db.StatusOf(plugins[i].spec.record) == RUNNING
  }

  lemma {:induction false} FoundNames(plugins: seq<Runner>, name: string, version: string)
    ensures var found, names := BySystem(plugins, name, version), SystemNames(Specs(plugins), name, version);
            |found| == |names| && forall i | 0 <= i < |found| :: found[i].spec.uniqueName == names[i]
  {
    if plugins != [] {
      FoundNames(plugins[..|plugins| - 1], name, version);
      assert Specs(plugins)[..|plugins| - 1] == Specs(plugins[..|plugins| - 1]);
    }
  }

  lemma AppendName(plugins: seq<Runner>, p: Runner, before: seq<string>, names: seq<string>)
    requires UniqueNames(plugins) == before + names
    ensures UniqueNames(plugins + [p]) == before + (names + [p.spec.uniqueName])
  {
    assert (before + names) + [p.spec.uniqueName] == before + (names + [p.spec.uniqueName]);
  }

  /** The record belongs to an instance of the system. */
  predicate IsStale(id: nat, systems: map<(string, string), seq<nat>>, name: string, version: string) {
    (name, version) in systems && id in systems[(name, version)]
  }

  /** The database after the records of the system have been replaced by new ones. */
  twostate predicate RecordsReplaced(db: Database, p: Plugin)
    reads db
  {
    var base, n := old(db.nextId), |p.instances|;
    && (forall id :: id in db.statuses <==>
          base <= id < base + n || (id in old(db.statuses) && !IsStale(id, old(db.systems), p.name, p.version)))
    && (forall id | id in db.statuses ::
          db.statuses[id] ==
            if base <= id < base + n || id !in old(db.statuses) then INITIALIZING else old(db.statuses)[id])
    && db.systems.Keys == old(db.systems).Keys + {(p.name, p.version)}
    && (forall key | key in old(db.systems) && key != (p.name, p.version) :: db.systems[key] == old(db.systems)[key])
    && |db.systems[(p.name, p.version)]| == n
    && (forall i | 0 <= i < n :: db.systems[(p.name, p.version)][i] == base + i)
    && db.nextId == base + n
  }

  /** Every runner has its own name and record, and records that will be created are not in use. */
  ghost predicate Settled(registry: LocalPluginRegistry, db: Database)
    reads registry, db
  {
    WellFormed(registry.plugins) && Below(Specs(registry.plugins), db.nextId)
  }

  // ----- records -----

  predicate DistinctRecords(specs: seq<Spec>) {
    forall i, j | 0 <= i < j < |specs| :: specs[i].record != specs[j].record
  }

  predicate Below(specs: seq<Spec>, base: nat) {
    forall i | 0 <= i < |specs| :: specs[i].record < base
  }

  lemma WellFormedSpecs(plugins: seq<Runner>)
    ensures WellFormed(plugins) <==> DistinctNames(Specs(plugins)) && DistinctRecords(Specs(plugins))
  {
    assert forall i | 0 <= i < |plugins| :: Specs(plugins)[i].record == plugins[i].spec.record;
  }

  lemma {:induction false} RecordOfMeaning(names: seq<string>, name: string, base: nat)
    requires name in names
    ensures var k := RecordOf(names, name, base) - base;
            0 <= k < |names| && names[k] == name && forall i | 0 <= i < k :: names[i] != name
  {
    if names[0] != name {
      RecordOfMeaning(names[1..], name, base + 1);
      var k := RecordOf(names, name, base) - base;
      assert forall i | 1 <= i < k :: names[i] == names[1..][i - 1];
    }
  }

  /** What a runner for an instance is made of: it has the arguments of its instance, if there are any,
      and the record of the first instance of that name. */
  lemma SpecForMeaning(p: Plugin, k: nat, base: nat)
    requires k < |p.instances|
    ensures var s := SpecFor(p, p.instances[k], base);
            && s.system == p.name && s.version == p.version && s.instanceName == p.instances[k]
            && s.uniqueName == p.name + "[" + p.instances[k] + "]-" + p.version
            && s.path == p.path && s.requirements == p.requirements
            && (p.instances[k] in p.pluginArgs ==> s.args == p.pluginArgs[p.instances[k]])
            && (p.instances[k] !in p.pluginArgs ==> s.args == PluginConfig.NoArgs)
            && base <= s.record < base + |p.instances|
            && p.instances[s.record - base] == p.instances[k]
            && forall i | 0 <= i < s.record - base :: p.instances[i] != p.instances[k]
  {
    RecordOfMeaning(p.instances, p.instances[k], base);
  }

  /** New records have the next ids and are INITIALIZING. */
  lemma {:induction false} NewRecordsMeaning(base: nat, n: nat)
    ensures forall id :: id in NewRecords(base, n) <==> base <= id < base + n
    ensures forall id | id in NewRecords(base, n) :: NewRecords(base, n)[id] == INITIALIZING
  {
    if n > 0 {
      NewRecordsMeaning(base, n - 1);
    }
  }

  /** The record of a new instance is not that of a runner with another name. */
  lemma NewRecordIsUnused(specs: seq<Spec>, p: Plugin, base: nat, n: nat, i: nat)
    requires n < |p.instances| && FromPlugin(specs, p, base) && i < |specs|
    requires specs[i].uniqueName != SpecFor(p, p.instances[n], base).uniqueName
    ensures specs[i].record != SpecFor(p, p.instances[n], base).record
  {
    RecordOfMeaning(p.instances, p.instances[n], base);
    if specs[i].record >= base {
      var k :| 0 <= k < |p.instances| && specs[i] == SpecFor(p, p.instances[k], base);
      RecordOfMeaning(p.instances, p.instances[k], base);
    }
  }

  lemma RegisteredRecords(specs: seq<Spec>, p: Plugin, base: nat, n: nat)
    requires n < |p.instances| && Recorded(specs, p, base)
    ensures Recorded(Registered(specs, SpecFor(p, p.instances[n], base)), p, base)
  {
    var s := SpecFor(p, p.instances[n], base);
    if !Named(specs, s.uniqueName) {
      forall i | 0 <= i < |specs| ensures specs[i].record != s.record {
        NewRecordIsUnused(specs, p, base, n, i);
      }
    }
  }

  /** Runners with new records are those of the plugin. */
  ghost predicate FromPlugin(specs: seq<Spec>, p: Plugin, base: nat) {
    forall i | 0 <= i < |specs| && specs[i].record >= base ::
      exists k :: 0 <= k < |p.instances| && specs[i] == SpecFor(p, p.instances[k], base)
  }

  lemma {:induction false} LoadedKeepsDistinct(specs: seq<Spec>, p: Plugin, base: nat, n: nat)
    requires n <= |p.instances| && DistinctNames(specs)
    ensures DistinctNames(Loaded(specs, p, base, n))
    decreases n
  {
    if n > 0 {
      LoadedKeepsDistinct(specs, p, base, n - 1);
      RegisteredKeepsDistinct(Loaded(specs, p, base, n - 1), SpecFor(p, p.instances[n - 1], base));
    }
  }

  /** Records of runners are distinct, and new ones belong to the plugin. */
  ghost predicate Recorded(specs: seq<Spec>, p: Plugin, base: nat) {
    DistinctRecords(specs) && FromPlugin(specs, p, base)
  }

  lemma {:induction false} LoadedRecords(specs: seq<Spec>, p: Plugin, base: nat, n: nat)
    requires n <= |p.instances| && Recorded(specs, p, base)
    ensures Recorded(Loaded(specs, p, base, n), p, base)
    decreases n
  {
    if n > 0 {
      LoadedRecords(specs, p, base, n - 1);
      RegisteredRecords(Loaded(specs, p, base, n - 1), p, base, n - 1);
    }
  }

  lemma FromPluginIsBelow(specs: seq<Spec>, p: Plugin, base: nat)
    requires FromPlugin(specs, p, base)
    ensures Below(specs, base + |p.instances|)
  {
    forall i | 0 <= i < |specs| ensures specs[i].record < base + |p.instances| {
      if specs[i].record >= base {
        var k :| 0 <= k < |p.instances| && specs[i] == SpecFor(p, p.instances[k], base);
        RecordOfMeaning(p.instances, p.instances[k], base);
      }
    }
  }

  lemma RemovedRecords(specs: seq<Spec>, name: string, base: nat)
    requires DistinctRecords(specs) && Below(specs, base)
    ensures DistinctRecords(Removed(specs, name)) && Below(Removed(specs, name), base)
  {
    var k, r := IndexOf(specs, name), Removed(specs, name);
    if k < |specs| {
      assert forall i | 0 <= i < |r| :: r[i] == specs[if i < k then i else i + 1];
    }
  }

  lemma {:induction false} RemovedAllRecords(specs: seq<Spec>, names: seq<string>, base: nat)
    requires DistinctNames(specs) && DistinctRecords(specs) && Below(specs, base)
    ensures var r := RemovedAll(specs, names); DistinctNames(r) && DistinctRecords(r) && Below(r, base)
  {
    if names != [] {
      var before := RemovedAll(specs, names[..|names| - 1]);
      RemovedAllRecords(specs, names[..|names| - 1], base);
      RemovedKeepsDistinct(before, names[|names| - 1]);
      RemovedRecords(before, names[|names| - 1], base);
    }
  }

  ghost predicate IsFreshRunner(r: Runner, s: Spec)
    reads r
  {
    r.spec == s && !r.stopFlag && r.process == NotLaunched
  }

  // ----- the loops -----

  class LocalPluginLoader {
    const registry: LocalPluginRegistry
    const db: Database

    constructor (registry: LocalPluginRegistry, db: Database)
      ensures this.registry == registry && this.db == db
    {
      this.registry, this.db := registry, db;
    }

    /** The loop that makes and registers a runner for each instance. */
    method RegisterInstances(p: Plugin, base: nat) returns (pluginList: seq<Runner>)
      modifies registry
      ensures Specs(registry.plugins) == Loaded(old(Specs(registry.plugins)), p, base, |p.instances|)
      ensures forall q | q in old(registry.plugins) :: q in registry.plugins
      ensures forall q | q in registry.plugins && q !in old(registry.plugins) :: q in pluginList
      ensures |pluginList| == |p.instances|
      ensures forall i | 0 <= i < |pluginList| ::
          IsFreshRunner(pluginList[i], SpecFor(p, p.instances[i], base)) && fresh(pluginList[i])
    {
      pluginList := [];
      for i := 0 to |p.instances|
        invariant Specs(registry.plugins) == Loaded(old(Specs(registry.plugins)), p, base, i)
        invariant forall q | q in old(registry.plugins) :: q in registry.plugins
        invariant forall q | q in registry.plugins && q !in old(registry.plugins) :: q in pluginList
        invariant |pluginList| == i
        invariant forall j | 0 <= j < i ::
            IsFreshRunner(pluginList[j], SpecFor(p, p.instances[j], base)) && fresh(pluginList[j])
      {
        var plugin := RegisterInstance(SpecFor(p, p.instances[i], base));
        pluginList := pluginList + [plugin];
      }
    }

    method RegisterInstance(s: Spec) returns (plugin: Runner)
      modifies registry
      ensures Specs(registry.plugins) == Registered(old(Specs(registry.plugins)), s)
      ensures registry.plugins == old(registry.plugins) || registry.plugins == old(registry.plugins) + [plugin]
      ensures IsFreshRunner(plugin, s) && fresh(plugin)
    {
      plugin := new Runner(s);
      registry.RegisterPlugin(plugin);
    }

    /** load_plugin. The records of the system's instances are deleted and new ones created. The list has
        a runner for every instance, also for those whose name was taken. */
    method LoadPlugin(found: Found) returns (r: LoadResult)
      modifies registry, db
      ensures r.Plugins? == found.Loadable? && r.NotLoaded? == found.Invalid?
      ensures !found.Loadable? ==> unchanged(registry) && unchanged(db)
      ensures found.Loadable? ==> var p, base := found.plugin, old(db.nextId);
                && Specs(registry.plugins) == Loaded(old(Specs(registry.plugins)), p, base, |p.instances|)
                && (forall q | q in old(registry.plugins) :: q in registry.plugins)
                && (forall q | q in registry.plugins && q !in old(registry.plugins) :: q in r.list)
                && RecordsReplaced(db, p)
                && |r.list| == |p.instances|
                && (forall i | 0 <= i < |r.list| ::
                    IsFreshRunner(r.list[i], SpecFor(p, p.instances[i], base)) && fresh(r.list[i]))
      ensures old(Settled(registry, db)) ==> Settled(registry, db)
    {
      if found.Invalid? {
        return NotLoaded;
      } else if found.Raising? {
        return LoadRaised;
      }
      var p, base := found.plugin, db.nextId;
      ghost var settled, specs := Settled(registry, db), Specs(registry.plugins);
      WellFormedSpecs(registry.plugins);
      CreateRecords(p);
      var pluginList := RegisterInstances(p, base);
      if settled {
        LoadedKeepsDistinct(specs, p, base, |p.instances|);
        LoadedRecords(specs, p, base, |p.instances|);
        FromPluginIsBelow(Specs(registry.plugins), p, base);
        WellFormedSpecs(registry.plugins);
      }
      return Plugins(pluginList);
    }

    method CreateRecords(p: Plugin)
      modifies db
      ensures RecordsReplaced(db, p)
    {
      var base, n := db.nextId, |p.instances|;
      var stale := IdSet(db.InstancesOf(p.name, p.version));
      NewRecordsMeaning(base, n);
      db.statuses := (db.statuses - stale) + NewRecords(base, n);
      db.systems := db.systems[(p.name, p.version) := Ids(base, n)];
      db.nextId := base + n;
    }

    /** The loop that takes the runners of the system out of the registry. */
    method RemovePlugins(plugins: seq<Runner>, ghost names: seq<string>)
      requires |plugins| == |names| && forall i | 0 <= i < |plugins| :: plugins[i].spec.uniqueName == names[i]
      modifies registry
      ensures Specs(registry.plugins) == RemovedAll(old(Specs(registry.plugins)), names)
    {
      for i := 0 to |plugins|
        invariant Specs(registry.plugins) == RemovedAll(old(Specs(registry.plugins)), names[..i])
      {
        assert names[..i + 1][..i] == names[..i];
        registry.Remove(plugins[i].spec.uniqueName);
      }
      assert names[..|plugins|] == names;
    }

    /** Why reload_system refuses before it removes anything, in the order in which it looks. */
    ghost function Refusal(name: string, version: string, valid: bool): Option<ReloadError>
      reads registry, db
    {
      var plugins := BySystem(registry.plugins, name, version);
      if plugins == [] then Some(NotInRegistry)
      else if !valid then Some(InvalidConfiguration)
      else if AnyRunning(db, plugins) then Some(RunningInstances)
      else None
    }

    /** reload_system. `valid` is the validator's answer for the path of the registered plugins, and
        `found` what load_plugin, which asks the validator again, finds there after the removal. */
    method ReloadSystem(name: string, version: string, valid: bool, found: Found) returns (r: Result<(), ReloadError>)
      modifies registry, db
      ensures var refusal := old(Refusal(name, version, valid));
              && (refusal.Some? ==> r == Err(refusal.value) && unchanged(registry) && unchanged(db))
              && (refusal.None? ==> r == if found.Raising? then Err(LoadFailed) else Ok(()))
              && (refusal.None? && found.Loadable? ==>
                    && Specs(registry.plugins)
                       == Reloaded(old(Specs(registry.plugins)), name, version, found.plugin, old(db.nextId))
                    && RecordsReplaced(db, found.plugin))
              && (refusal.None? && !found.Loadable? ==>
                    && Specs(registry.plugins)
                       == old(RemovedAll(Specs(registry.plugins), SystemNames(Specs(registry.plugins), name, version)))
                    && unchanged(db))
      ensures var system := old(BySystem(registry.plugins, name, version));
              && (system == [] ==> r == Err(NotInRegistry))
              && (system != [] && !valid ==> r == Err(InvalidConfiguration))
              && (system != [] && valid ==>
                    (r == Err(RunningInstances) <==>
                       exists p :: p in system && p.spec.record in old(db.statuses)
                                   && old(db.statuses)[p.spec.record] == RUNNING))
      ensures old(Settled(registry, db)) ==> Settled(registry, db)
    {
      var plugins := registry.GetPluginsBySystem(name, version);
      if |plugins| < 1 {
        return Err(NotInRegistry);
      }
      if !valid {
        return Err(InvalidConfiguration);
      }
      for i := 0 to |plugins|
        invariant forall j | 0 <= j < i :: db.StatusOf(plugins[j].spec.record) != RUNNING
      {
        if db.StatusOf(plugins[i].spec.record) == RUNNING {
          return Err(RunningInstances);
        }
      }
      RemoveSystem(name, version, plugins);
      var loaded := LoadPlugin(found);
      return if loaded.LoadRaised? then Err(LoadFailed) else Ok(());
    }

    method RemoveSystem(name: string, version: string, plugins: seq<Runner>)
      requires plugins == BySystem(registry.plugins, name, version)
      modifies registry
      ensures Specs(registry.plugins)
              == old(RemovedAll(Specs(registry.plugins), SystemNames(Specs(registry.plugins), name, version)))
      ensures old(Settled(registry, db)) ==> Settled(registry, db)
    {
      ghost var settled, specs := Settled(registry, db), Specs(registry.plugins);
      ghost var names := SystemNames(specs, name, version);
      WellFormedSpecs(registry.plugins);
      FoundNames(registry.plugins, name, version);
      RemovePlugins(plugins, names);
      if settled {
        RemovedAllRecords(specs, names, db.nextId);
        WellFormedSpecs(registry.plugins);
      }
    }

    /** The runners with a requirement that is not among the names, once for each such requirement. */
    method FindUnsatisfied(pluginList: seq<Runner>, pluginNames: set<string>) returns (pluginsToRemove: seq<Runner>)
      ensures UniqueNames(pluginsToRemove) == Unsatisfied(Specs(pluginList), pluginNames)
    {
      ghost var specs := Specs(pluginList);
      pluginsToRemove := [];
      for i := 0 to |pluginList|
        invariant UniqueNames(pluginsToRemove) == Unsatisfied(specs[..i], pluginNames)
      {
        assert specs[..i + 1][..i] == specs[..i];
        var requirements := pluginList[i].spec.requirements;
        ghost var before := Unsatisfied(specs[..i], pluginNames);
        for j := 0 to |requirements|
          invariant UniqueNames(pluginsToRemove) == before + Missing(specs[i], pluginNames, j)
        {
          if requirements[j] !in pluginNames {
            AppendName(pluginsToRemove, pluginList[i], before, Missing(specs[i], pluginNames, j));
            pluginsToRemove := pluginsToRemove + [pluginList[i]];
          }
        }
      }
      assert specs[..|pluginList|] == specs;
    }

    /** validate_plugin_requirements: one pass over a snapshot, against the names registered before. */
    method ValidatePluginRequirements()
      modifies registry
      ensures var specs := old(Specs(registry.plugins));
              Specs(registry.plugins) == RemovedAll(specs, Unsatisfied(specs, SystemsOf(specs)))
    {
      var pluginNames := registry.GetUniquePluginNames();
      var pluginsToRemove := FindUnsatisfied(registry.plugins, pluginNames);
      RemovePlugins(pluginsToRemove, UniqueNames(pluginsToRemove));
    }
  }

  // ----- what a reload leaves -----

  /** The runners that do not belong to the system, in order. */
  function Others(specs: seq<Spec>, name: string, version: string): seq<Spec> {
    if specs == [] then [] else
      (if OfSystem(specs[0], name, version) then [] else [specs[0]]) + Others(specs[1..], name, version)
  }

  function WithoutNames(specs: seq<Spec>, names: set<string>): seq<Spec> {
    if specs == [] then [] else
      (if specs[0].uniqueName in names then [] else [specs[0]]) + WithoutNames(specs[1..], names)
  }

  lemma DistinctTail(specs: seq<Spec>)
    requires DistinctNames(specs) && specs != []
    ensures DistinctNames(specs[1..]) && !Named(specs[1..], specs[0].uniqueName)
  {
    assert forall i | 0 <= i < |specs[1..]| :: specs[1..][i] == specs[i + 1];
  }

  lemma {:induction false} NothingToRemove(specs: seq<Spec>, name: string)
    requires !Named(specs, name)
    ensures WithoutNames(specs, {name}) == specs
  {
    if specs != [] {
      assert specs[0].uniqueName != name;
      assert !Named(specs[1..], name) by {
        assert forall i | 0 <= i < |specs[1..]| :: specs[1..][i] == specs[i + 1];
      }
      NothingToRemove(specs[1..], name);
    }
  }

  lemma RemovedFromTail(specs: seq<Spec>, name: string)
    requires specs != [] && specs[0].uniqueName != name
    ensures Removed(specs, name) == [specs[0]] + Removed(specs[1..], name)
  {
    var k := IndexOf(specs[1..], name);
    if k < |specs[1..]| {
      assert specs[..k + 1] + specs[k + 2..] == [specs[0]] + (specs[1..][..k] + specs[1..][k + 1..]);
    }
  }

  /** When names are distinct, removing the first runner of a name removes the name. */
  lemma {:induction false} RemovedIsWithout(specs: seq<Spec>, name: string)
    requires DistinctNames(specs)
    ensures Removed(specs, name) == WithoutNames(specs, {name})
  {
    if specs != [] {
      DistinctTail(specs);
      if specs[0].uniqueName == name {
        NothingToRemove(specs[1..], name);
      } else {
        RemovedIsWithout(specs[1..], name);
        RemovedFromTail(specs, name);
      }
    }
  }

  lemma {:induction false} WithoutTwice(specs: seq<Spec>, a: set<string>, b: set<string>)
    ensures WithoutNames(WithoutNames(specs, a), b) == WithoutNames(specs, a + b)
  {
    if specs != [] {
      WithoutTwice(specs[1..], a, b);
      var kept := WithoutNames(specs[1..], a);
      assert ([specs[0]] + kept)[1..] == kept && [] + kept == kept;
    }
  }

  function NameSet(names: seq<string>): set<string> {
    set n | n in names
  }

  lemma {:induction false} WithoutNothing(specs: seq<Spec>)
    ensures WithoutNames(specs, {}) == specs
  {
    if specs != [] {
      WithoutNothing(specs[1..]);
    }
  }

  lemma {:induction false} RemovedAllIsWithout(specs: seq<Spec>, names: seq<string>)
    requires DistinctNames(specs)
    ensures RemovedAll(specs, names) == WithoutNames(specs, NameSet(names)) && DistinctNames(RemovedAll(specs, names))
  {
    if names == [] {
      WithoutNothing(specs);
      assert NameSet(names) == {};
    } else {
      var init, last := names[..|names| - 1], names[|names| - 1];
      RemovedAllIsWithout(specs, init);
      RemovedIsWithout(RemovedAll(specs, init), last);
      RemovedKeepsDistinct(RemovedAll(specs, init), last);
      WithoutTwice(specs, NameSet(init), {last});
      assert NameSet(names) == NameSet(init) + {last};
    }
  }

  lemma {:induction false} SystemNamesMeaning(specs: seq<Spec>, name: string, version: string, n: string)
    ensures n in SystemNames(specs, name, version) <==>
              exists i :: 0 <= i < |specs| && OfSystem(specs[i], name, version) && specs[i].uniqueName == n
  {
    if specs != [] {
      var init, last := specs[..|specs| - 1], specs[|specs| - 1];
      SystemNamesMeaning(init, name, version, n);
      assert forall i | 0 <= i < |init| :: init[i] == specs[i];
      if i :| 0 <= i < |specs| && OfSystem(specs[i], name, version) && specs[i].uniqueName == n {
        assert i < |init| ==> init[i] == specs[i];
      }
    }
  }

  /** Names decide membership in the system when they are distinct, so removing the names of the
      system's runners removes exactly these runners. */
  lemma {:induction false} WithoutSystem(specs: seq<Spec>, names: set<string>, name: string, version: string)
    requires forall i | 0 <= i < |specs| :: specs[i].uniqueName in names <==> OfSystem(specs[i], name, version)
    ensures WithoutNames(specs, names) == Others(specs, name, version)
  {
    if specs != [] {
      assert forall i | 0 <= i < |specs[1..]| :: specs[1..][i] == specs[i + 1];
      WithoutSystem(specs[1..], names, name, version);
    }
  }

  lemma RemovingLeavesOthers(specs: seq<Spec>, name: string, version: string)
    requires DistinctNames(specs)
    ensures RemovedAll(specs, SystemNames(specs, name, version)) == Others(specs, name, version)
    ensures DistinctNames(Others(specs, name, version))
  {
    var names := SystemNames(specs, name, version);
    RemovedAllIsWithout(specs, names);
    forall i | 0 <= i < |specs| ensures specs[i].uniqueName in NameSet(names) <==> OfSystem(specs[i], name, version) {
      SystemNamesMeaning(specs, name, version, specs[i].uniqueName);
      if j :| 0 <= j < |specs| && OfSystem(specs[j], name, version) && specs[j].uniqueName == specs[i].uniqueName {
        assert i == j;
      }
    }
    WithoutSystem(specs, NameSet(names), name, version);
  }

  lemma {:induction false} OthersAreOthers(specs: seq<Spec>, name: string, version: string)
    ensures forall s | s in Others(specs, name, version) :: s in specs && !OfSystem(s, name, version)
  {
    if specs != [] {
      OthersAreOthers(specs[1..], name, version);
    }
  }

  lemma JoinAssociates(a: seq<Spec>, b: seq<Spec>, c: seq<Spec>)
    ensures (a + b) + c == a + (b + c)
  {
  }

  lemma {:induction false} OthersOfAppended(specs: seq<Spec>, s: Spec, name: string, version: string)
    ensures Others(specs + [s], name, version)
            == Others(specs, name, version) + if OfSystem(s, name, version) then [] else [s]
  {
    var last := if OfSystem(s, name, version) then [] else [s];
    if specs == [] {
      assert specs + [s] == [s] && [s][1..] == [];
      assert [] + last == last && last + [] == last;
    } else {
      var head := if OfSystem(specs[0], name, version) then [] else [specs[0]];
      var all := specs + [s];
      assert all[0] == specs[0] && all[1..] == specs[1..] + [s];
      OthersOfAppended(specs[1..], s, name, version);
      JoinAssociates(head, Others(specs[1..], name, version), last);
    }
  }

  lemma {:induction false} OthersOfOthers(specs: seq<Spec>, name: string, version: string)
    ensures Others(Others(specs, name, version), name, version) == Others(specs, name, version)
  {
    if specs != [] {
      OthersOfOthers(specs[1..], name, version);
      var kept := Others(specs[1..], name, version);
      assert ([specs[0]] + kept)[1..] == kept && [] + kept == kept;
    }
  }

  /** Names are built as they should be and can be taken apart again. */
  predicate Clean(s: Spec) {
    ProperlyNamed(s) && Separable(s.system, s.instanceName)
  }

  predicate AllClean(specs: seq<Spec>) {
    specs == [] || (Clean(specs[|specs| - 1]) && AllClean(specs[..|specs| - 1]))
  }

  lemma {:induction false} CleanAt(specs: seq<Spec>)
    ensures AllClean(specs) <==> forall i | 0 <= i < |specs| :: Clean(specs[i])
  {
    if specs != [] {
      var init := specs[..|specs| - 1];
      CleanAt(init);
      assert forall i | 0 <= i < |init| :: init[i] == specs[i];
    }
  }

  predicate CleanPlugin(p: Plugin) {
    forall i | 0 <= i < |p.instances| :: Separable(p.name, p.instances[i])
  }

  predicate Has(specs: seq<Spec>, name: string, version: string, instance: string) {
    exists i :: 0 <= i < |specs| && OfSystem(specs[i], name, version) && specs[i].instanceName == instance
  }

  /** A runner of the plugin's system comes from the plugin's configuration. */
  predicate Configured(s: Spec, p: Plugin) {
    OfSystem(s, p.name, p.version) ==>
      && s.instanceName in p.instances
      && s.path == p.path && s.args == ArgsOf(p, s.instanceName) && s.requirements == p.requirements
  }

  lemma RegisteredKeepsClean(specs: seq<Spec>, s: Spec)
    requires DistinctNames(specs) && AllClean(specs) && Clean(s)
    ensures DistinctNames(Registered(specs, s)) && AllClean(Registered(specs, s))
  {
    RegisteredKeepsDistinct(specs, s);
    assert (specs + [s])[..|specs|] == specs;
  }

  lemma SpecForIsClean(p: Plugin, k: nat, base: nat)
    requires k < |p.instances| && CleanPlugin(p)
    ensures Clean(SpecFor(p, p.instances[k], base)) && Configured(SpecFor(p, p.instances[k], base), p)
  {
    assert Separable(p.name, p.instances[k]);
  }

  lemma {:induction false} LoadedIsClean(specs: seq<Spec>, p: Plugin, base: nat, n: nat)
    requires n <= |p.instances| && DistinctNames(specs) && AllClean(specs) && CleanPlugin(p)
    ensures DistinctNames(Loaded(specs, p, base, n)) && AllClean(Loaded(specs, p, base, n))
    decreases n
  {
    if n > 0 {
      LoadedIsClean(specs, p, base, n - 1);
      SpecForIsClean(p, n - 1, base);
      RegisteredKeepsClean(Loaded(specs, p, base, n - 1), SpecFor(p, p.instances[n - 1], base));
    }
  }

  lemma {:induction false} LoadedKeepsOthers(specs: seq<Spec>, p: Plugin, base: nat, n: nat)
    requires n <= |p.instances|
    ensures Others(Loaded(specs, p, base, n), p.name, p.version) == Others(specs, p.name, p.version)
    decreases n
  {
    if n > 0 {
      var before, s := Loaded(specs, p, base, n - 1), SpecFor(p, p.instances[n - 1], base);
      LoadedKeepsOthers(specs, p, base, n - 1);
      OthersOfAppended(before, s, p.name, p.version);
    }
  }

  predicate AllConfigured(specs: seq<Spec>, p: Plugin) {
    forall i | 0 <= i < |specs| :: Configured(specs[i], p)
  }

  lemma RegisteredKeepsConfigured(specs: seq<Spec>, p: Plugin, s: Spec)
    requires AllConfigured(specs, p) && Configured(s, p)
    ensures AllConfigured(Registered(specs, s), p)
  {
  }

  lemma {:induction false} LoadedFromPlugin(specs: seq<Spec>, p: Plugin, base: nat, n: nat)
    requires n <= |p.instances| && AllConfigured(specs, p) && CleanPlugin(p)
    ensures AllConfigured(Loaded(specs, p, base, n), p)
    decreases n
  {
    if n > 0 {
      LoadedFromPlugin(specs, p, base, n - 1);
      SpecForIsClean(p, n - 1, base);
      RegisteredKeepsConfigured(Loaded(specs, p, base, n - 1), p, SpecFor(p, p.instances[n - 1], base));
    }
  }

  lemma RegisteredHas(specs: seq<Spec>, s: Spec, name: string, version: string, instance: string)
    requires Has(specs, name, version, instance)
    ensures Has(Registered(specs, s), name, version, instance)
  {
    var i :| 0 <= i < |specs| && OfSystem(specs[i], name, version) && specs[i].instanceName == instance;
    assert Registered(specs, s)[i] == specs[i];
  }

  /** Registering an instance leaves one with its name, also when the unique name was taken. */
  lemma RegisteredIsThere(specs: seq<Spec>, s: Spec)
    requires AllClean(specs) && Clean(s)
    ensures Has(Registered(specs, s), s.system, s.version, s.instanceName)
  {
    if Named(specs, s.uniqueName) {
      var i :| 0 <= i < |specs| && specs[i].uniqueName == s.uniqueName;
      CleanAt(specs);
      UniqueNameIsInjective(specs[i], s);
    } else {
      assert Registered(specs, s)[|specs|] == s;
    }
  }

  lemma {:induction false} LoadedHas(specs: seq<Spec>, p: Plugin, base: nat, n: nat, i: nat)
    requires i < n <= |p.instances| && DistinctNames(specs) && AllClean(specs) && CleanPlugin(p)
    ensures Has(Loaded(specs, p, base, n), p.name, p.version, p.instances[i])
    decreases n
  {
    var before, s := Loaded(specs, p, base, n - 1), SpecFor(p, p.instances[n - 1], base);
    if i < n - 1 {
      LoadedHas(specs, p, base, n - 1, i);
      RegisteredHas(before, s, p.name, p.version, p.instances[i]);
    } else {
      LoadedIsClean(specs, p, base, n - 1);
      SpecForIsClean(p, n - 1, base);
      RegisteredIsThere(before, s);
    }
  }

  /** What is left after the removal, with the instances of the plugin loaded on top. */
  lemma ReloadedIsLoaded(specs: seq<Spec>, p: Plugin, base: nat)
    requires DistinctNames(specs) && AllClean(specs) && CleanPlugin(p)
    ensures var others, r := Others(specs, p.name, p.version), Reloaded(specs, p.name, p.version, p, base);
            && DistinctNames(others) && AllClean(others)
            && r == Loaded(others, p, base, |p.instances|)
            && Others(r, p.name, p.version) == others
            && DistinctNames(r) && AllClean(r) && AllConfigured(r, p)
  {
    var others, n := Others(specs, p.name, p.version), |p.instances|;
    RemovingLeavesOthers(specs, p.name, p.version);
    OthersOfOthers(specs, p.name, p.version);
    OthersAreClean(specs, p.name, p.version);
    LoadedIsClean(others, p, base, n);
    LoadedKeepsOthers(others, p, base, n);
    LoadedFromPlugin(others, p, base, n);
  }

  lemma ConfiguredMeaning(specs: seq<Spec>, p: Plugin)
    requires AllConfigured(specs, p)
    ensures forall s | s in specs && s.system == p.name && s.version == p.version ::
              && s.instanceName in p.instances && s.path == p.path && s.requirements == p.requirements
              && (s.instanceName in p.pluginArgs ==> s.args == p.pluginArgs[s.instanceName])
              && (s.instanceName !in p.pluginArgs ==> s.args == PluginConfig.NoArgs)
  {
    forall s | s in specs ensures Configured(s, p) {
      var k :| 0 <= k < |specs| && specs[k] == s;
    }
  }

  lemma HasMeaning(specs: seq<Spec>, name: string, version: string, instance: string)
    requires Has(specs, name, version, instance)
    ensures exists s :: s in specs && s.system == name && s.version == version && s.instanceName == instance
  {
    var k :| 0 <= k < |specs| && OfSystem(specs[k], name, version) && specs[k].instanceName == instance;
    assert specs[k] in specs;
  }

  lemma InstancesDiffer(specs: seq<Spec>, name: string, version: string)
    requires DistinctNames(specs) && AllClean(specs)
    ensures forall i, j | 0 <= i < j < |specs|
                && specs[i].system == specs[j].system == name && specs[i].version == specs[j].version == version ::
              specs[i].instanceName != specs[j].instanceName
  {
    forall i, j | 0 <= i < j < |specs|
        && specs[i].system == specs[j].system == name && specs[i].version == specs[j].version == version
      ensures specs[i].instanceName != specs[j].instanceName
    {
      CleanNamesDiffer(specs, i, j);
    }
  }

  lemma ReloadedHas(specs: seq<Spec>, p: Plugin, base: nat)
    requires DistinctNames(specs) && AllClean(specs) && CleanPlugin(p)
    ensures forall i | 0 <= i < |p.instances| ::
              exists s :: s in Reloaded(specs, p.name, p.version, p, base)
                  && s.system == p.name && s.version == p.version && s.instanceName == p.instances[i]
  {
    ReloadedIsLoaded(specs, p, base);
    forall i | 0 <= i < |p.instances|
      ensures exists s :: s in Reloaded(specs, p.name, p.version, p, base)
                  && s.system == p.name && s.version == p.version && s.instanceName == p.instances[i]
    {
      LoadedHas(Others(specs, p.name, p.version), p, base, |p.instances|, i);
      HasMeaning(Reloaded(specs, p.name, p.version, p, base), p.name, p.version, p.instances[i]);
    }
  }

  /** A successful reload leaves exactly one runner per configured instance of the system, all of them
      from the new configuration, and the runners of all other systems in their order. */
  lemma ReloadIsExact(specs: seq<Spec>, p: Plugin, base: nat)
    requires DistinctNames(specs) && AllClean(specs) && CleanPlugin(p)
    ensures var r := Reloaded(specs, p.name, p.version, p, base);
            && DistinctNames(r)
            && Others(r, p.name, p.version) == Others(specs, p.name, p.version)
            && (forall i | 0 <= i < |p.instances| ::
                  exists s :: s in r
                      && s.system == p.name && s.version == p.version && s.instanceName == p.instances[i])
            && (forall s | s in r && s.system == p.name && s.version == p.version ::
                  && s.instanceName in p.instances && s.path == p.path && s.requirements == p.requirements
                  && (s.instanceName in p.pluginArgs ==> s.args == p.pluginArgs[s.instanceName])
                  && (s.instanceName !in p.pluginArgs ==> s.args == PluginConfig.NoArgs))
            && (forall i, j | 0 <= i < j < |r|
                    && r[i].system == r[j].system == p.name && r[i].version == r[j].version == p.version ::
                  r[i].instanceName != r[j].instanceName)
  {
    var r := Reloaded(specs, p.name, p.version, p, base);
    ReloadedIsLoaded(specs, p, base);
    ReloadedHas(specs, p, base);
    ConfiguredMeaning(r, p);
    InstancesDiffer(r, p.name, p.version);
  }

  /** The other runners are those with another system name or version. */
  lemma {:induction false} OthersMeaning(specs: seq<Spec>, name: string, version: string)
    ensures forall s :: s in Others(specs, name, version) <==> s in specs && (s.system != name || s.version != version)
  {
    if specs != [] {
      OthersMeaning(specs[1..], name, version);
      assert specs == [specs[0]] + specs[1..];
    }
  }

  lemma OthersAreClean(specs: seq<Spec>, name: string, version: string)
    requires AllClean(specs)
    ensures var others := Others(specs, name, version);
            AllClean(others) && forall i | 0 <= i < |others| :: !OfSystem(others[i], name, version)
  {
    var others := Others(specs, name, version);
    OthersAreOthers(specs, name, version);
    CleanAt(specs);
    forall i | 0 <= i < |others| ensures Clean(others[i]) && !OfSystem(others[i], name, version) {
      assert others[i] in others;
    }
    CleanAt(others);
  }

  lemma CleanNamesDiffer(specs: seq<Spec>, i: nat, j: nat)
    requires DistinctNames(specs) && AllClean(specs) && i < j < |specs|
    requires specs[i].system == specs[j].system && specs[i].version == specs[j].version
    ensures specs[i].instanceName != specs[j].instanceName
  {
    CleanAt(specs);
    assert Clean(specs[i]) && Clean(specs[j]);
    assert specs[i].uniqueName != specs[j].uniqueName;
  }
}

/** Plugin runners, the instance records that hold their statuses, and the registry of runners. */
module Registry {
  import PluginConfig

  datatype Status = INITIALIZING | STARTING | RUNNING | PAUSED | UNRESPONSIVE | STOPPING | STOPPED | DEAD | UNKNOWN

  /** What identifies a runner and what it is built from. `record` is the id of its instance record. */
  datatype Spec = Spec(
    uniqueName: string, system: string, version: string, instanceName: string, record: nat, path: string,
    args: PluginConfig.Args, requirements: seq<string>)

  datatype Process = NotLaunched | Alive | Exited

  /** "%s[%s]-%s" */
  function UniqueName(system: string, instanceName: string, version: string): string {
    system + "[" + instanceName + "]-" + version
  }

  function MakeSpec(system: string, version: string, instanceName: string, record: nat, path: string,
                    args: PluginConfig.Args, requirements: seq<string>): Spec
  {
    Spec(UniqueName(system, instanceName, version), system, version, instanceName, record, path, args, requirements)
  }

  predicate ProperlyNamed(s: Spec) {
    s.uniqueName == UniqueName(s.system, s.instanceName, s.version)
  }

  /** The first opening bracket of the unique name ends the system, and the first closing one after it
      ends the instance. */
  predicate Separable(system: string, instanceName: string) {
    '[' !in system && ']' !in instanceName
  }

  /** Names that can be told apart make the unique name injective. */
  lemma UniqueNameIsInjective(a: Spec, b: Spec)
    requires Separable(a.system, a.instanceName) && Separable(b.system, b.instanceName)
    requires ProperlyNamed(a) && ProperlyNamed(b) && a.uniqueName == b.uniqueName
    ensures a.system == b.system && a.instanceName == b.instanceName && a.version == b.version
  {
    var x, y := a.instanceName + "]-" + a.version, b.instanceName + "]-" + b.version;
    assert a.system + ['['] + x == a.uniqueName && b.system + ['['] + y == b.uniqueName;
    SplitAt(a.system, x, b.system, y, '[');
    assert a.instanceName + [']'] + ("-" + a.version) == x && b.instanceName + [']'] + ("-" + b.version) == y;
    SplitAt(a.instanceName, "-" + a.version, b.instanceName, "-" + b.version, ']');
    assert ("-" + a.version)[1..] == a.version && ("-" + b.version)[1..] == b.version;
  }

  lemma SplitAt(x: string, y: string, x': string, y': string, c: char)
    requires c !in x && c !in x'
    requires x + [c] + y == x' + [c] + y'
    ensures x == x' && y == y'
  {
    NotLonger(x, y, x', y', c);
    NotLonger(x', y', x, y, c);
    var s, s' := x + [c] + y, x' + [c] + y';
    assert x == s[..|x|] && x' == s'[..|x'|];
    assert y == s[|x| + 1..] && y' == s'[|x'| + 1..];
  }

  lemma NotLonger(x: string, y: string, x': string, y': string, c: char)
    requires c !in x'
    requires x + [c] + y == x' + [c] + y'
    ensures |x'| <= |x|
  {
    var s := x' + [c] + y';
    assert forall i | 0 <= i < |x'| :: s[i] == x'[i];
    assert (x + [c] + y)[|x|] == c;
  }

  // ----- the registry as a list of specs -----

  predicate Named(specs: seq<Spec>, name: string) {
    exists i | 0 <= i < |specs| :: specs[i].uniqueName == name
  }

  predicate DistinctNames(specs: seq<Spec>) {
    forall i, j | 0 <= i < j < |specs| :: specs[i].uniqueName != specs[j].uniqueName
  }

  /** The position of the first runner of that name, or the length. */
  function IndexOf(specs: seq<Spec>, name: string): (k: nat)
    ensures k <= |specs|
    ensures forall i | 0 <= i < k :: specs[i].uniqueName != name
    ensures k < |specs| ==> specs[k].uniqueName == name
  {
    if specs == [] then 0 else if specs[0].uniqueName == name then 0 else 1 + IndexOf(specs[1..], name)
  }

  function Removed(specs: seq<Spec>, name: string): seq<Spec> {
    var k := IndexOf(specs, name);
    if k < |specs| then specs[..k] + specs[k + 1..] else specs
  }

  function Registered(specs: seq<Spec>, s: Spec): seq<Spec> {
    if Named(specs, s.uniqueName) then specs else specs + [s]
  }

  // ----- objects -----

  /** The instance records in the database, the ids of those of each system, and the next unused id. A
      missing record reads as UNKNOWN and ignores writes. */
  class Database {
    var statuses: map<nat, Status>
    var systems: map<(string, string), seq<nat>>
    var nextId: nat

    constructor ()
      ensures statuses == map[] && systems == map[] && nextId == 0
    {
      statuses, systems, nextId := map[], map[], 0;
    }

    /** find_unique: the records of the system's instances, or none if there is no such system. */
    function InstancesOf(name: string, version: string): seq<nat>
      reads this
    {
      if (name, version) in systems then systems[(name, version)] else []
    }

    function StatusOf(record: nat): Status
      reads this
    {
      if record in statuses then statuses[record] else UNKNOWN
    }

    method SetStatus(record: nat, status: Status)
      modifies this`statuses
      ensures statuses == if record in old(statuses) then old(statuses)[record := status] else old(statuses)
    {
      if record in statuses {
        statuses := statuses[record := status];
      }
    }
  }

  class Runner {
    const spec: Spec
    var stopFlag: bool
    var process: Process
    var threadStarted: bool
    var threadAlive: bool

    constructor (spec: Spec)
      ensures this.spec == spec && !stopFlag && process == NotLaunched && !threadStarted && !threadAlive
    {
      this.spec := spec;
      stopFlag, process, threadStarted, threadAlive := false, NotLaunched, false, false;
    }

    /** Kills the process if there is one that still runs. */
    method Kill()
      modifies if process == Alive then {this} else {}
      ensures process == if old(process) == Alive then Exited else old(process)
      ensures stopFlag == old(stopFlag) && threadStarted == old(threadStarted) && threadAlive == old(threadAlive)
    {
      if process == Alive {
        process := Exited;
      }
    }
  }

  function Specs(plugins: seq<Runner>): seq<Spec> {
    seq(|plugins|, i requires 0 <= i < |plugins| => plugins[i].spec)
  }

  /** Runners have distinct names and each its own instance record. */
  predicate WellFormed(plugins: seq<Runner>) {
    && DistinctNames(Specs(plugins))
    && forall i, j | 0 <= i < j < |plugins| :: plugins[i].spec.record != plugins[j].spec.record
  }

  predicate OfSystem(s: Spec, system: string, version: string) {
    s.system == system && s.version == version
  }

  /** The runners of a system, in the order of the registry. */
  function BySystem(plugins: seq<Runner>, system: string, version: string): seq<Runner> {
    if plugins == [] then [] else
      var last := plugins[|plugins| - 1];
      BySystem(plugins[..|plugins| - 1], system, version) + if OfSystem(last.spec, system, version) then [last] else []
  }

  lemma {:induction false} BySystemMeaning(plugins: seq<Runner>, system: string, version: string)
    ensures forall p :: p in BySystem(plugins, system, version) <==>
              p in plugins && p.spec.system == system && p.spec.version == version
  {
    if plugins != [] {
      BySystemMeaning(plugins[..|plugins| - 1], system, version);
      assert plugins == plugins[..|plugins| - 1] + [plugins[|plugins| - 1]];
    }
  }

  /** The names of the registered systems. */
  function SystemsOf(specs: seq<Spec>): set<string> {
    set i | 0 <= i < |specs| :: specs[i].system
  }

  class LocalPluginRegistry {
    var plugins: seq<Runner>

    constructor ()
      ensures plugins == []
    {
      plugins := [];
    }

    method GetPlugin(uniqueName: string) returns (index: nat)
      ensures index == IndexOf(Specs(plugins), uniqueName)
      ensures index <= |plugins| && forall i | 0 <= i < index :: plugins[i].spec.uniqueName != uniqueName
      ensures index < |plugins| ==> plugins[index].spec.uniqueName == uniqueName
    {
      ghost var specs := Specs(plugins);
      index := 0;
      while index < |plugins| && plugins[index].spec.uniqueName != uniqueName
        invariant index <= |plugins|
        invariant forall i | 0 <= i < index :: specs[i].uniqueName != uniqueName
        invariant forall i | 0 <= i < index :: plugins[i].spec.uniqueName != uniqueName
      {
        assert specs[index] == plugins[index].spec;
        index := index + 1;
      }
      assert index < |plugins| ==> specs[index] == plugins[index].spec;
    }

    method GetUniquePluginNames() returns (names: set<string>)
      ensures names == SystemsOf(Specs(plugins))
      ensures forall n :: n in names <==> exists p :: p in plugins && p.spec.system == n
    {
      names := set p | p in plugins :: p.spec.system;
      assert forall i | 0 <= i < |plugins| :: Specs(plugins)[i].system == plugins[i].spec.system;
    }

    method GetPluginsBySystem(system: string, version: string) returns (found: seq<Runner>)
      ensures found == BySystem(plugins, system, version)
      ensures forall p :: p in found <==> p in plugins && p.spec.system == system && p.spec.version == version
    {
      BySystemMeaning(plugins, system, version);
      found := [];
      for i := 0 to |plugins|
        invariant found == BySystem(plugins[..i], system, version)
      {
        assert plugins[..i + 1][..i] == plugins[..i];
        if OfSystem(plugins[i].spec, system, version) {
          found := found + [plugins[i]];
        }
      }
      assert plugins[..|plugins|] == plugins;
    }

    method Remove(uniqueName: string)
      modifies this
      ensures Specs(plugins) == Removed(old(Specs(plugins)), uniqueName)
      ensures var k := IndexOf(old(Specs(plugins)), uniqueName);
              plugins == if k < |old(plugins)| then old(plugins)[..k] + old(plugins)[k + 1..] else old(plugins)
    {
      var k := GetPlugin(uniqueName);
      if k < |plugins| {
        plugins := plugins[..k] + plugins[k + 1..];
      }
    }

    method RegisterPlugin(plugin: Runner)
      modifies this
      ensures Specs(plugins) == Registered(old(Specs(plugins)), plugin.spec)
      ensures plugins == if Named(old(Specs(plugins)), plugin.spec.uniqueName) then old(plugins)
          else old(plugins) + [plugin]
      ensures (exists p :: p in old(plugins) && p.spec.uniqueName == plugin.spec.uniqueName) ==> plugins == old(plugins)
      ensures (forall p | p in old(plugins) :: p.spec.uniqueName != plugin.spec.uniqueName) ==>
                plugins == old(plugins) + [plugin]
    {
      var k := GetPlugin(plugin.spec.uniqueName);
      if k == |plugins| {
        plugins := plugins + [plugin];
      }
    }
  }

  // ----- the unique-name discipline -----

  lemma RemovedKeepsDistinct(specs: seq<Spec>, name: string)
    requires DistinctNames(specs)
    ensures DistinctNames(Removed(specs, name)) && !Named(Removed(specs, name), name)
  {
    var k := IndexOf(specs, name);
    forall i | 0 <= i < |Removed(specs, name)| ensures Removed(specs, name)[i].uniqueName != name {
      if k < |specs| && i >= k {
        assert specs[k].uniqueName != specs[i + 1].uniqueName;
      }
    }
  }

  lemma RegisteredKeepsDistinct(specs: seq<Spec>, s: Spec)
    requires DistinctNames(specs)
    ensures DistinctNames(Registered(specs, s)) && Named(Registered(specs, s), s.uniqueName)
  {
    var r := Registered(specs, s);
    if !Named(specs, s.uniqueName) {
      assert r[|specs|] == s;
    }
  }

  lemma NamedAfterReplacing(specs: seq<Spec>, s: Spec, name: string)
    ensures Named(Removed(specs, s.uniqueName) + [s], name) ==> Named(specs, name) || name == s.uniqueName
    ensures Named(specs, name) || name == s.uniqueName ==> Named(Removed(specs, s.uniqueName) + [s], name)
  {
    var k, rest := IndexOf(specs, s.uniqueName), Removed(specs, s.uniqueName);
    var r := rest + [s];
    assert r[|rest|] == s;
    if i :| 0 <= i < |specs| && specs[i].uniqueName == name {
      assert i < k ==> r[i] == specs[i];
      assert i > k ==> r[i - 1] == specs[i];
    }
    if i :| 0 <= i < |rest| && rest[i].uniqueName == name {
      assert specs[if i < k then i else i + 1].uniqueName == name;
    }
  }

  /** Removing a name and registering a runner of that name keeps the names, each of them once. */
  lemma ReplacingKeepsNames(specs: seq<Spec>, s: Spec)
    requires DistinctNames(specs)
    ensures var r := Registered(Removed(specs, s.uniqueName), s);
            && DistinctNames(r)
            && r == Removed(specs, s.uniqueName) + [s]
            && forall name :: Named(r, name) <==> Named(specs, name) || name == s.uniqueName
  {
    RemovedKeepsDistinct(specs, s.uniqueName);
    RegisteredKeepsDistinct(Removed(specs, s.uniqueName), s);
    forall name
      ensures Named(Removed(specs, s.uniqueName) + [s], name) <==> Named(specs, name) || name == s.uniqueName
    {
      NamedAfterReplacing(specs, s, name);
    }
  }
}

/** The three database queries that seed the start loop. */
module SystemQueries {
  import opened Scheduler
  import opened SchedulerSafety

  datatype SystemRecord = SystemRecord(name: string, instances: seq<string>)

  const RUNNING := "RUNNING"
  const DEAD := "DEAD"

  predicate AllInstances(system: SystemRecord, status: string) {
    forall i | 0 <= i < |system.instances| :: system.instances[i] == status
  }

  method GetAllSystemNames(systems: seq<SystemRecord>) returns (names: seq<string>)
    ensures forall n :: n in names <==> exists s :: s in systems && s.name == n
  {
    names := [];
    for i := 0 to |systems|
      invariant forall n :: n in names <==> exists s :: s in systems[..i] && s.name == n
    {
      assert systems[..i + 1] == systems[..i] + [systems[i]];
      names := names + [systems[i].name];
    }
    assert systems[..|systems|] == systems;
  }

  /** Names of the systems all of whose instances have the given status. */
  method GetSystemNamesWithStatus(systems: seq<SystemRecord>, status: string) returns (names: seq<string>)
    ensures forall n :: n in names <==>
              exists s :: s in systems && s.name == n && forall x | x in s.instances :: x == status
  {
    names := [];
    for i := 0 to |systems|
      invariant forall n :: n in names <==> exists s :: s in systems[..i] && s.name == n && AllInstances(s, status)
    {
      assert systems[..i + 1] == systems[..i] + [systems[i]];
      if AllInstances(systems[i], status) {
        names := names + [systems[i].name];
      }
    }
    assert systems[..|systems|] == systems;
    AllInstancesMeaning(systems, status);
  }

  lemma AllInstancesMeaning(systems: seq<SystemRecord>, status: string)
    ensures forall s | s in systems :: AllInstances(s, status) <==> forall x | x in s.instances :: x == status
  {
    forall s | s in systems ensures AllInstances(s, status) <==> forall x | x in s.instances :: x == status {
      if AllInstances(s, status) {
        forall x | x in s.instances ensures x == status {
          var i :| 0 <= i < |s.instances| && s.instances[i] == x;
        }
      }
      assert forall i | 0 <= i < |s.instances| :: s.instances[i] in s.instances;
    }
  }

  method GetRunningSystemNames(systems: seq<SystemRecord>) returns (names: seq<string>)
    ensures forall n :: n in names <==>
              exists s :: s in systems && s.name == n && forall x | x in s.instances :: x == "RUNNING"
  {
    names := GetSystemNamesWithStatus(systems, RUNNING);
  }

  method GetFailedSystemNames(systems: seq<SystemRecord>) returns (names: seq<string>)
    ensures forall n :: n in names <==>
              exists s :: s in systems && s.name == n && forall x | x in s.instances :: x == "DEAD"
  {
    names := GetSystemNamesWithStatus(systems, DEAD);
  }

  /** The start loop from the database: it knows the names of all systems, and begins with those of the
      dead ones as failed and those of the running ones as started. */
  method StartFromDatabase(systems: seq<SystemRecord>, starts: (seq<Event>, Plugin) -> StartOutcome,
      plugins: seq<Plugin>, budget: nat)
    returns (known: seq<string>, failed: seq<string>, running: seq<string>, s: State)
    ensures forall n :: n in known <==> exists x :: x in systems && x.name == n
    ensures forall n :: n in failed <==>
              exists x :: x in systems && x.name == n && forall status | status in x.instances :: status == "DEAD"
    ensures forall n :: n in running <==>
              exists x :: x in systems && x.name == n && forall status | status in x.instances :: status == "RUNNING"
    ensures s == Run(World(known, starts), Init(plugins, failed, running), budget)
  {
    known := GetAllSystemNames(systems);
    failed := GetFailedSystemNames(systems);
    running := GetRunningSystemNames(systems);
    s := StartMultiplePlugins(World(known, starts), plugins, failed, running, budget);
  }

  /** A system without instances counts as running and as failed. The failed test comes first, so in
      no run is a plugin that requires such a system attempted. */
  lemma InstancelessSystemStopsDependants(
    systems: seq<SystemRecord>, system: SystemRecord, w: World, plugins: seq<Plugin>,
    failed: seq<string>, running: seq<string>, pops: nat, i: nat)
    requires forall n :: n in failed <==>
               exists s :: s in systems && s.name == n && forall x | x in s.instances :: x == "DEAD"
    requires forall n :: n in running <==>
               exists s :: s in systems && s.name == n && forall x | x in s.instances :: x == "RUNNING"
    requires system in systems && system.instances == []
    requires var log := Run(w, Init(plugins, failed, running), pops).log;
             i < |log| && system.name in log[i].plugin.requirements
    ensures system.name in running
    ensures Run(w, Init(plugins, failed, running), pops).log[i].MarkedFailed?
  {
    var log := Run(w, Init(plugins, failed, running), pops).log;
    if log[i].Attempted? {
      StartOrder(w, plugins, failed, running, pops, i, system.name);
    }
  }
}

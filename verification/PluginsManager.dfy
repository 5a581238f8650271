/** Starting, stopping and restarting one plugin, and a pass of the monitor over all of them. Each
    method is one uninterrupted step; module StopProtocol interleaves them. */
module PluginsManager {
  import opened Registry

  /** start_plugin returns True or raises; it never returns False. */
  datatype StartResult = Running | InvalidState | ThreadStartedTwice

  /** Where a statement of stop_plugin raises: when it reads the status, after that but before the flag
      is set, or while the message is sent or the thread is waited for. */
  datatype RaisePoint = Nowhere | OnReading | BeforeFlag | AfterFlag

  /** Whether the runner's thread has finished before stop_plugin asks if it is alive, finishes later
      but before the call returns, or still works then. */
  datatype Ending = InTime | Late | StillWorking

  /** What happens during a call of stop_plugin. A report by the plugin that it has STOPPED counts if it
      arrives first, before the status is read, or last, after the call has written it for the last
      time; in between the call overwrites it. */
  datatype Shutdown = Shutdown(raised: RaisePoint, thread: Ending, reportedFirst: bool, reportedLast: bool)

  const UNDISTURBED := Shutdown(Nowhere, StillWorking, false, false)

  predicate AlreadyStopped(status: Status) {
    status in {DEAD, STOPPED, STOPPING}
  }

  /** stop_plugin does nothing to a runner that is stopped already and has no process. */
  predicate Untouchable(status: Status, process: Process, during: Shutdown) {
    AlreadyStopped(status) && process != Alive && during.thread.StillWorking?
  }

  /** The status that stop_plugin reads in the record. */
  function StatusRead(statuses: map<nat, Status>, record: nat, during: Shutdown): Status {
    if record !in statuses then UNKNOWN else if during.reportedFirst then STOPPED else statuses[record]
  }

  /** stop_plugin returns early, because the plugin looks stopped. */
  predicate ReturnsEarly(read: Status, during: Shutdown) {
    !during.raised.OnReading? && AlreadyStopped(read)
  }

  /** stop_plugin gets as far as setting the stop flag. */
  predicate SetsFlag(read: Status, during: Shutdown) {
    !AlreadyStopped(read) && (during.raised.Nowhere? || during.raised.AfterFlag?)
  }

  /** The status that stop_plugin leaves in an existing record in which it reads `read`. */
  function AfterStop(read: Status, during: Shutdown, threadAlive: bool): Status {
    if during.reportedLast then STOPPED
    else if ReturnsEarly(read, during) then read
    else if during.raised != Nowhere || (threadAlive && !during.thread.InTime?) then DEAD
    else if read == UNKNOWN then UNKNOWN else STOPPING
  }

  /** What stop_plugin leaves, case by case, for a record that held `status` before. */
  lemma StopTable(statuses: map<nat, Status>, record: nat, during: Shutdown, alive: bool)
    requires record in statuses
    ensures var status, read := statuses[record], StatusRead(statuses, record, during);
            var left, flags := AfterStop(read, during, alive), SetsFlag(read, during);
            var lively := !during.reportedFirst && status !in {DEAD, STOPPED, STOPPING};
            && (during.reportedLast ==> left == STOPPED)
            && (during.raised == OnReading ==> !flags && (!during.reportedLast ==> left == DEAD))
            && (during.raised != OnReading && during.reportedFirst ==> !flags && left == STOPPED)
            && (during.raised != OnReading && !during.reportedFirst && !lively ==>
                  !flags && (!during.reportedLast ==> left == status))
            && (lively && during.raised in {BeforeFlag, AfterFlag} && !during.reportedLast ==> left == DEAD)
            && (lively && during.raised == BeforeFlag ==> !flags)
            && (lively && during.raised in {Nowhere, AfterFlag} ==> flags)
            && (lively && during.raised == Nowhere && !during.reportedLast ==>
                  left == if alive && during.thread != InTime then DEAD
                          else if status == UNKNOWN then UNKNOWN else STOPPING)
  {
  }

  function Written(statuses: map<nat, Status>, record: nat, status: Status): map<nat, Status> {
    if record in statuses then statuses[record := status] else statuses
  }

  /** The runner of that name is taken out and the new one put at the end. */
  function WithReplacement(plugins: seq<Runner>, current: Runner): seq<Runner> {
    var k := IndexOf(Specs(plugins), current.spec.uniqueName);
    (if k < |plugins| then plugins[..k] + plugins[k + 1..] else plugins) + [current]
  }

  class LocalPluginsManager {
    const registry: LocalPluginRegistry
    const db: Database

    constructor (registry: LocalPluginRegistry, db: Database)
      ensures this.registry == registry && this.db == db
    {
      this.registry, this.db := registry, db;
    }

    method StartPlugin(plugin: Runner) returns (r: StartResult, current: Runner)
      modifies registry, db`statuses, if db.StatusOf(plugin.spec.record) == INITIALIZING then {plugin} else {}
      ensures var record, before := plugin.spec.record, old(db.statuses);
              var status := if record in before then before[record] else UNKNOWN;
              && (status in {RUNNING, STARTING}
                  ==> r == Running && unchanged(registry) && unchanged(db) && unchanged(plugin) && current == plugin)
              && (status == INITIALIZING ==>
                    && unchanged(registry) && current == plugin && plugin.threadStarted
                    && plugin.stopFlag == old(plugin.stopFlag) && plugin.process == old(plugin.process)
                    && db.statuses == Written(old(db.statuses), plugin.spec.record, STARTING)
                    && (r == if old(plugin.threadStarted) then ThreadStartedTwice else Running))
              && (status in {DEAD, STOPPED} ==>
                    && r == Running && fresh(current) && current.spec == plugin.spec && current.threadStarted
                    && !current.stopFlag && current.process == NotLaunched && unchanged(plugin)
                    && db.statuses == Written(old(db.statuses), plugin.spec.record, STARTING)
                    && Specs(registry.plugins)
                        == Registered(Removed(old(Specs(registry.plugins)), plugin.spec.uniqueName), plugin.spec)
                    && (DistinctNames(old(Specs(registry.plugins)))
                        ==> registry.plugins == WithReplacement(old(registry.plugins), current)))
              && (status in {PAUSED, UNRESPONSIVE, STOPPING, UNKNOWN} ==>
                    r == InvalidState && unchanged(registry) && unchanged(db) && unchanged(plugin))
    {
      var status := db.StatusOf(plugin.spec.record);
      current := plugin;
      if status in {RUNNING, STARTING} {
        return Running, plugin;
      }
      if status == INITIALIZING {
        current := plugin;
      } else if status in {DEAD, STOPPED} {
        current := new Runner(plugin.spec);
        RemovedKeepsDistinctIfSo(Specs(registry.plugins), plugin.spec.uniqueName);
        registry.Remove(plugin.spec.uniqueName);
        registry.RegisterPlugin(current);
      } else {
        return InvalidState, plugin;
      }
      db.SetStatus(current.spec.record, STARTING);
      if current.threadStarted {
        return ThreadStartedTwice, current;
      }
      current.threadStarted, current.threadAlive := true, true;
      r := Running;
    }

    method StopPlugin(plugin: Runner, during: Shutdown)
      modifies db`statuses,
               if Untouchable(StatusRead(db.statuses, plugin.spec.record, during), plugin.process, during) then {}
                   else {plugin}
      ensures var read := StatusRead(old(db.statuses), plugin.spec.record, during);
              && db.statuses == Written(old(db.statuses), plugin.spec.record,
                  AfterStop(read, during, old(plugin.threadAlive)))
              && plugin.stopFlag == (old(plugin.stopFlag) || SetsFlag(read, during))
              && plugin.threadStarted == old(plugin.threadStarted)
              && plugin.threadAlive == (old(plugin.threadAlive) && during.thread.StillWorking?)
              && plugin.process == if old(plugin.threadAlive && plugin.process == Alive) then Exited
                  else old(plugin.process)
      ensures var record, before := plugin.spec.record, old(db.statuses);
              var status := if record in before then before[record] else UNKNOWN;
              && (status in {DEAD, STOPPED, STOPPING} && during.raised != OnReading
                  && !during.reportedFirst && !during.reportedLast ==>
                    db.statuses == old(db.statuses) && plugin.stopFlag == old(plugin.stopFlag))
              && (status !in {DEAD, STOPPED, STOPPING} && during.raised == Nowhere && !during.reportedFirst ==>
                    plugin.stopFlag)
    {
      if during.reportedFirst {
        db.SetStatus(plugin.spec.record, STOPPED);
      }
      var returned, cleanShutdown := TryToStop(plugin, during);
      var alive := EndProcess(plugin, during);
      if !returned && (alive || !cleanShutdown) {
        db.SetStatus(plugin.spec.record, DEAD);
      }
      if during.reportedLast {
        db.SetStatus(plugin.spec.record, STOPPED);
      }
    }

    /** The finally block of stop_plugin: `alive` is what is_alive() answers for the thread. A thread that
        has finished by then has seen its process exit; one that finishes late does so afterwards. */
    method EndProcess(plugin: Runner, during: Shutdown) returns (alive: bool)
      modifies if plugin.process == Alive || !during.thread.StillWorking? then {plugin} else {}
      ensures alive == (old(plugin.threadAlive) && !during.thread.InTime?)
      ensures plugin.process == if old(plugin.threadAlive && plugin.process == Alive) then Exited
          else old(plugin.process)
      ensures plugin.threadAlive == (old(plugin.threadAlive) && during.thread.StillWorking?)
      ensures plugin.stopFlag == old(plugin.stopFlag) && plugin.threadStarted == old(plugin.threadStarted)
    {
      if during.thread.InTime? && plugin.threadAlive {
        plugin.process := if plugin.process == Alive then Exited else plugin.process;
        plugin.threadAlive := false;
      }
      alive := plugin.threadAlive;
      if alive {
        plugin.Kill();
      }
      if during.thread.Late? {
        plugin.threadAlive := false;
      }
    }

    /** The try block of stop_plugin with its except clause. `returned` is the early return. */
    method TryToStop(plugin: Runner, during: Shutdown) returns (returned: bool, clean: bool)
      modifies db`statuses, if SetsFlag(db.StatusOf(plugin.spec.record), during) then {plugin} else {}
      ensures var status := old(db.StatusOf(plugin.spec.record));
              && returned == ReturnsEarly(status, during)
              && clean == (returned || during.raised.Nowhere?)
              && db.statuses == (if during.raised.OnReading? || AlreadyStopped(status) || status == UNKNOWN then
                  old(db.statuses)
                                 else Written(old(db.statuses), plugin.spec.record, STOPPING))
              && plugin.stopFlag == (old(plugin.stopFlag) || SetsFlag(status, during))
              && plugin.process == old(plugin.process)
              && plugin.threadAlive == old(plugin.threadAlive) && plugin.threadStarted == old(plugin.threadStarted)
    {
      if during.raised.OnReading? {
        return false, false;
      }
      var status := db.StatusOf(plugin.spec.record);
      if AlreadyStopped(status) {
        return true, true;
      } else if status != UNKNOWN {
        db.SetStatus(plugin.spec.record, STOPPING);
      }
      if during.raised.BeforeFlag? {
        return false, false;
      }
      plugin.stopFlag := true;
      return false, !during.raised.AfterFlag?;
    }

    method RestartPlugin(plugin: Runner, during: Shutdown) returns (r: StartResult, current: Runner)
      modifies registry, db`statuses,
               if Untouchable(StatusRead(db.statuses, plugin.spec.record, during), plugin.process, during) then {}
                   else {plugin}
      ensures var read := StatusRead(old(db.statuses), plugin.spec.record, during);
              var stopped := if plugin.spec.record in old(db.statuses) then
                  AfterStop(read, during, old(plugin.threadAlive)) else UNKNOWN;
              && (r == Running <==> stopped in {DEAD, STOPPED})
              && (r == Running ==>
                    && fresh(current) && current.spec == plugin.spec && !current.stopFlag
                        && current.process == NotLaunched
                    && db.statuses == old(db.statuses)[plugin.spec.record := STARTING]
                    && (DistinctNames(old(Specs(registry.plugins)))
                        ==> registry.plugins == WithReplacement(old(registry.plugins), current)))
              && (r != Running ==> unchanged(registry))
      ensures var quiet := during.raised != OnReading && !during.reportedFirst && !during.reportedLast;
              var record, before := plugin.spec.record, old(db.statuses);
              var status := if record in before then before[record] else UNKNOWN;
              && (quiet && status == STOPPING ==> r == InvalidState && unchanged(registry) && db.statuses == before)
              && (quiet && status in {DEAD, STOPPED} ==> r == Running)
    {
      StopPlugin(plugin, during);
      r, current := StartPlugin(plugin);
    }
  }

  lemma RemovedKeepsDistinctIfSo(specs: seq<Spec>, name: string)
    ensures DistinctNames(specs) ==> !Named(Removed(specs, name), name)
  {
    if DistinctNames(specs) {
      RemovedKeepsDistinct(specs, name);
    }
  }
}

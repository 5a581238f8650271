/** The dependency-ordered start loop of LocalPluginsManager: a worklist is popped from its end
    and every popped plugin is attempted, marked as failed, or put back at the front. */
module Scheduler {

  datatype Plugin = Plugin(uniqueName: string, system: string, requirements: seq<string>)

  /** What `start_plugin` does: return True, return False, or raise. */
  datatype StartOutcome = Started | Refused | Raised

  /** A decision about one popped plugin. Putting a plugin back is not a decision. */
  datatype Event =
    | Attempted(plugin: Plugin, outcome: StartOutcome)
    | MarkedFailed(plugin: Plugin, requirement: string)

  /** What the loop reads but does not change: the system names in the database, and how
      `start_plugin` answers. The answer may depend on everything decided so far. */
  datatype World = World(known: seq<string>, starts: (seq<Event>, Plugin) -> StartOutcome)

  datatype State = State(
    queue: seq<Plugin>, failed: seq<string>, started: seq<string>, log: seq<Event>, aborted: bool)

  datatype Verdict = Attempt | Fail(requirement: string) | Skip

  predicate Fails(e: Event) {
    e.MarkedFailed? || e.outcome.Refused?
  }

  predicate Starts(e: Event) {
    e.Attempted? && e.outcome.Started?
  }

  function FailedNames(log: seq<Event>): seq<string> {
    if log == [] then [] else
      var e := log[|log| - 1];
      FailedNames(log[..|log| - 1]) + if Fails(e) then [e.plugin.system] else []
  }

  function StartedNames(log: seq<Event>): seq<string> {
    if log == [] then [] else
      var e := log[|log| - 1];
      StartedNames(log[..|log| - 1]) + if Starts(e) then [e.plugin.system] else []
  }

  function Decided(log: seq<Event>): seq<Plugin> {
    seq(|log|, i requires 0 <= i < |log| => log[i].plugin)
  }

  function ToSet(names: seq<string>): set<string> {
    set x | x in names
  }

  /** The scan of one plugin's requirements, which stops at the first one that decides. */
  function Decide(known: set<string>, failed: set<string>, started: set<string>, requirements: seq<string>): Verdict {
    if requirements == [] then Attempt
    else if requirements[0] !in known || requirements[0] in failed then Fail(requirements[0])
    else if requirements[0] !in started then Skip
    else Decide(known, failed, started, requirements[1..])
  }

  function VerdictOn(w: World, s: State, p: Plugin): Verdict {
    Decide(ToSet(w.known), ToSet(s.failed), ToSet(s.started), p.requirements)
  }

  function Init(plugins: seq<Plugin>, failed: seq<string>, started: seq<string>): State {
    State(plugins, failed, started, [], false)
  }

  predicate Halted(s: State) {
    s.queue == [] || s.aborted
  }

  /** One iteration of the loop. */
  function Step(w: World, s: State): State
    requires !Halted(s)
  {
    var p, rest := s.queue[|s.queue| - 1], s.queue[..|s.queue| - 1];
    match VerdictOn(w, s, p)
    case Skip => s.(queue := [p] + rest)
    case Fail(r) => s.(queue := rest, failed := s.failed + [p.system], log := s.log + [MarkedFailed(p, r)])
    case Attempt =>
      var outcome := w.starts(s.log, p);
      var s' := s.(queue := rest, log := s.log + [Attempted(p, outcome)]);
      match outcome
      case Started => s'.(started := s.started + [p.system])
      case Refused => s'.(failed := s.failed + [p.system])
      case Raised => s'.(aborted := true)
  }

  /** The state after `pops` iterations, or after fewer if the loop ended before. */
  function Run(w: World, s: State, pops: nat): State
    decreases pops
  {
    if pops == 0 || Halted(s) then s else Run(w, Step(w, s), pops - 1)
  }

  ghost predicate Terminates(w: World, s: State) {
    exists pops: nat :: Halted(Run(w, s, pops))
  }

  lemma {:induction false} RunCompose(w: World, s: State, m: nat, n: nat)
    ensures Run(w, Run(w, s, m), n) == Run(w, s, m + n)
    decreases m
  {
    if m == 0 {
    } else if Halted(s) {
    } else {
      RunCompose(w, Step(w, s), m - 1, n);
    }
  }

  /** All halting runs of the loop end in the same state. */
  lemma HaltedStateIsUnique(w: World, s: State, m: nat, n: nat)
    requires Halted(Run(w, s, m)) && Halted(Run(w, s, n))
    ensures Run(w, s, m) == Run(w, s, n)
  {
    if m <= n {
      RunCompose(w, s, m, n - m);
    } else {
      RunCompose(w, s, n, m - n);
    }
  }

  /** How the scan of requirements decides, without the order in which it looks. */
  lemma {:induction false} DecideMeaning(known: set<string>, failed: set<string>, started: set<string>,
      reqs: seq<string>)
    ensures var v := Decide(known, failed, started, reqs);
            && (v.Attempt? <==> forall r | r in reqs :: r in known && r !in failed && r in started)
            && (v.Fail? ==> exists k :: FirstFailure(known, failed, started, reqs, k) && reqs[k] == v.requirement)
            && (forall k | FirstFailure(known, failed, started, reqs, k) :: v == Fail(reqs[k]))
  {
    if reqs != [] {
      var tail := reqs[1..];
      DecideMeaning(known, failed, started, tail);
      assert forall r :: r in reqs <==> r == reqs[0] || r in tail;
      var v := Decide(known, failed, started, reqs);
      if reqs[0] in known && reqs[0] !in failed && reqs[0] in started {
        if v.Fail? {
          var k :| FirstFailure(known, failed, started, tail, k) && tail[k] == v.requirement;
          assert FirstFailure(known, failed, started, reqs, k + 1);
        }
        forall k | FirstFailure(known, failed, started, reqs, k) ensures v == Fail(reqs[k]) {
          assert FirstFailure(known, failed, started, tail, k - 1) by {
            assert forall j | 0 <= j < k - 1 :: tail[j] == reqs[j + 1];
          }
        }
      } else if v.Fail? {
        assert FirstFailure(known, failed, started, reqs, 0);
      }
    }
  }

  /** reqs[k] is unknown or failed, and every requirement before it is satisfied. */
  ghost predicate FirstFailure(known: set<string>, failed: set<string>, started: set<string>, reqs: seq<string>,
      k: int)
  {
    && 0 <= k < |reqs|
    && (reqs[k] !in known || reqs[k] in failed)
    && forall j | 0 <= j < k :: reqs[j] in known && reqs[j] !in failed && reqs[j] in started
  }

  /** The body of the loop: pop a plugin, scan its requirements, decide or put it back. */
  method Pop(w: World, s: State) returns (s': State)
    requires !Halted(s)
    ensures s' == Step(w, s)
  {
    var startList, failed, started, log, aborted := s.queue, s.failed, s.started, s.log, s.aborted;
    var plugin := startList[|startList| - 1];
    startList := startList[..|startList| - 1];
    var attemptToStart := true;
    var i := 0;
    while i < |plugin.requirements|
      invariant 0 <= i <= |plugin.requirements|
      invariant attemptToStart && startList == s.queue[..|s.queue| - 1] && failed == s.failed && log == s.log
      invariant Decide(ToSet(w.known), ToSet(failed), ToSet(started), plugin.requirements[i..])
          == VerdictOn(w, s, plugin)
    {
      var required := plugin.requirements[i];
      if required !in w.known || required in failed {
        log := log + [MarkedFailed(plugin, required)];
        failed := failed + [plugin.system];
        attemptToStart := false;
        break;
      } else if required !in started {
        startList := [plugin] + startList;
        attemptToStart := false;
        break;
      }
      i := i + 1;
    }
    if attemptToStart {
      var outcome := w.starts(log, plugin);
      log := log + [Attempted(plugin, outcome)];
      match outcome {
        case Started => started := started + [plugin.system];
        case Refused => failed := failed + [plugin.system];
        case Raised => aborted := true;
      }
    }
    s' := State(startList, failed, started, log, aborted);
  }

  /** LocalPluginsManager._start_multiple_plugins, observed for at most `budget` iterations, since the
      loop need not end; `failed0` and `started0` are the initial name lists. Whatever the budget, all
      runs that end return the same state. */
  method StartMultiplePlugins(w: World, plugins: seq<Plugin>, failed0: seq<string>, started0: seq<string>, budget: nat)
    returns (s: State)
    ensures s == Run(w, Init(plugins, failed0, started0), budget)
    ensures Halted(s) ==> forall n: nat | Halted(Run(w, Init(plugins, failed0, started0), n)) ::
                            s == Run(w, Init(plugins, failed0, started0), n)
  {
    ghost var s0 := Init(plugins, failed0, started0);
    s := Init(plugins, failed0, started0);
    var pops := 0;
    while s.queue != [] && !s.aborted && pops < budget
      invariant s == Run(w, s0, pops) && pops <= budget
      decreases budget - pops
    {
      RunCompose(w, s0, pops, 1);
      assert Run(w, s, 1) == Run(w, Step(w, s), 0);
      s := Pop(w, s);
      pops := pops + 1;
    }
    RunCompose(w, s0, pops, budget - pops);
    if Halted(s) {
      forall n: nat | Halted(Run(w, s0, n)) ensures s == Run(w, s0, n) {
        HaltedStateIsUnique(w, s0, budget, n);
      }
    }
  }
}

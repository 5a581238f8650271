/** stop_plugin in small steps, interleaved with itself, with monitor passes split into small steps,
    with process launches, exits and reports, and with everything else that touches the registry. The
    registry operations and start_plugin are single steps. */
module StopProtocol {
  import opened Wrappers
  import opened Registry
  import opened PluginsManager

  // ----- state -----

  /** Why a process exited: on its own, because it obeyed a `_stop` message, or because stop_plugin
      killed it. A message knows the runner that stop_plugin was called with, if any; `flagged` says
      whether the stop flag was set when the process was killed. */
  datatype Cause = OnItsOwn | AskedFor(sender: Option<nat>) | Killed(flagged: bool)

  datatype ProcessState = Unlaunched | Living | Gone(cause: Cause)

  /** The thread that launches the process and waits for it. It can be started once. */
  datatype Thread = Fresh | Working | Finished

  datatype RunnerState = RunnerState(name: string, record: nat, process: ProcessState, stopFlag: bool, thread: Thread)

  /** Where a call of stop_plugin is. `returning` is the early return for a stopped plugin. */
  datatype StopPoint = AtStart | AtMark | AtFlag | AtSend | AtJoin | AtFinally(returning: bool) | AtDead | Returned

  datatype StopCall = StopCall(target: nat, point: StopPoint, clean: bool)

  /** Messages are addressed to an instance, so they reach whatever process serves it. */
  datatype Message = Message(address: string, sender: Option<nat>)

  datatype MonitorPoint =
    | Idle
    | Looking(rest: seq<nat>)
    | Committed(r: nat, rest: seq<nat>)          // saw the process exited and the flag unset
    | SawRunning(r: nat, rest: seq<nat>)
    | SawOther(r: nat, rest: seq<nat>)           // the status was not RUNNING when it was first read
    | SawStarting(r: nat, rest: seq<nat>)
    | Restarting(r: nat, call: nat, rest: seq<nat>)
    | Ended                                      // told to stop, or start_plugin raised

  datatype State = State(
    runners: seq<RunnerState>, registry: seq<nat>, statuses: map<nat, Status>,
    mail: set<Message>, stops: seq<StopCall>, monitor: MonitorPoint)

  const INIT := State([], [], map[], {}, [], Idle)

  function StatusOf(s: State, record: nat): Status {
    if record in s.statuses then s.statuses[record] else UNKNOWN
  }

  function SetStatus(s: State, record: nat, status: Status): State {
    s.(statuses := Written(s.statuses, record, status))
  }

  function SetRunner(s: State, r: nat, runner: RunnerState): State
    requires r < |s.runners|
  {
    s.(runners := s.runners[r := runner])
  }

  function SetPoint(s: State, c: nat, call: StopCall): State
    requires c < |s.stops|
  {
    s.(stops := s.stops[c := call])
  }

  // ----- the registry -----

  function Without(s: State, registry: seq<nat>, name: string): seq<nat> {
    if registry == [] then []
    else if registry[0] < |s.runners| && s.runners[registry[0]].name == name then registry[1..]
    else [registry[0]] + Without(s, registry[1..], name)
  }

  predicate Lists(s: State, registry: seq<nat>, name: string) {
    exists i | 0 <= i < |registry| :: registry[i] < |s.runners| && s.runners[registry[i]].name == name
  }

  /** A new runner, registered unless its name is taken. */
  function Register(s: State, registry: seq<nat>, name: string, record: nat, thread: Thread): State {
    State(s.runners + [RunnerState(name, record, Unlaunched, false, thread)],
          if Lists(s, registry, name) then registry else registry + [|s.runners|],
          s.statuses, s.mail, s.stops, s.monitor)
  }

  /** The runner's name is taken out of the registry and a new runner, which is started, put in. */
  function Replace(s: State, runner: RunnerState): State {
    var rest := Without(s, s.registry, runner.name);
    SetStatus(Register(s, rest, runner.name, runner.record, Working), runner.record, STARTING)
  }

  /** start_plugin in one step, and whether it returned rather than raised. */
  function Start(s: State, r: nat): (State, bool)
    requires r < |s.runners|
  {
    var runner := s.runners[r];
    match StatusOf(s, runner.record)
    case RUNNING => (s, true)
    case STARTING => (s, true)
    case INITIALIZING =>
      var s' := SetStatus(s, runner.record, STARTING);
      if runner.thread.Fresh? then (SetRunner(s', r, runner.(thread := Working)), true) else (s', false)
    case DEAD => (Replace(s, runner), true)
    case STOPPED => (Replace(s, runner), true)
    case _ => (s, false)
  }

  // ----- the steps of stop_plugin -----

  /** While the thread works, kill() ends a living process; it does nothing about one that has not been
      launched. */
  function FinallyStep(s: State, c: nat, returning: bool): State
    requires c < |s.stops| && s.stops[c].target < |s.runners|
  {
    var call, r := s.stops[c], s.stops[c].target;
    var runner := s.runners[r];
    if runner.thread.Working? then
      var killed := if runner.process.Living? then SetRunner(s, r, runner.(process := Gone(Killed(runner.stopFlag))))
          else s;
      SetPoint(killed, c, StopCall(r, if returning then Returned else AtDead, false))
    else SetPoint(s, c, call.(point := if returning || call.clean then Returned else AtDead))
  }

  /** `raises`: the current statement raises. join() returns when the thread has finished or the time
      is up, which can be at any moment. */
  function StopStep(s: State, c: nat, raises: bool): Option<State> {
    if c >= |s.stops| || s.stops[c].target >= |s.runners| then None else
      var call, runner := s.stops[c], s.runners[s.stops[c].target];
      var r := call.target;
      if raises then
        if call.point in {AtStart, AtMark, AtFlag, AtSend, AtJoin} then
          Some(SetPoint(s, c, StopCall(r, AtFinally(false), false)))
        else None
      else match call.point
        case AtStart =>
          var status := StatusOf(s, runner.record);
          Some(SetPoint(s, c, call.(point :=
            if AlreadyStopped(status) then AtFinally(true) else if status == UNKNOWN then AtFlag else AtMark)))
        case AtMark => Some(SetPoint(SetStatus(s, runner.record, STOPPING), c, call.(point := AtFlag)))
        case AtFlag => Some(SetPoint(SetRunner(s, r, runner.(stopFlag := true)), c, call.(point := AtSend)))
        case AtSend => Some(SetPoint(s.(mail := s.mail + {Message(runner.name, Some(r))}), c, call.(point := AtJoin)))
        case AtJoin => Some(SetPoint(s, c, call.(point := AtFinally(false))))
        case AtFinally(returning) => Some(FinallyStep(s, c, returning))
        case AtDead => Some(SetPoint(SetStatus(s, runner.record, DEAD), c, call.(point := Returned)))
        case Returned => None
  }

  // ----- the steps of the monitor -----

  function MonitorStep(s: State): Option<State> {
    match s.monitor
    case Idle => Some(s.(monitor := Looking(s.registry)))
    case Looking(rest) =>
      if rest == [] then Some(s.(monitor := Idle))
      else if rest[0] < |s.runners| && s.runners[rest[0]].process.Gone? && !s.runners[rest[0]].stopFlag then
        Some(s.(monitor := Committed(rest[0], rest[1..])))
      else Some(s.(monitor := Looking(rest[1..])))
    case Committed(r, rest) =>
      if r >= |s.runners| then None else
        Some(s.(monitor := if StatusOf(s, s.runners[r].record) == RUNNING then SawRunning(r, rest)
            else SawOther(r, rest)))
    case SawOther(r, rest) =>
      if r >= |s.runners| then None else
        Some(s.(monitor := if StatusOf(s, s.runners[r].record) == STARTING then SawStarting(r, rest)
            else Looking(rest)))
    case SawStarting(r, rest) =>
      if r >= |s.runners| then None else Some(SetStatus(s, s.runners[r].record, DEAD).(monitor := Looking(rest)))
    case SawRunning(r, rest) =>
      if r >= |s.runners| then None else
        Some(SetStatus(s, s.runners[r].record, DEAD).(
          stops := s.stops + [StopCall(r, AtStart, true)], monitor := Restarting(r, |s.stops|, rest)))
    case Restarting(r, c, rest) =>
      if r >= |s.runners| || c >= |s.stops| || s.stops[c].point != Returned then None else
        var (s', ok) := Start(s, r);
        Some(s'.(monitor := if ok then Looking(rest) else Ended))
    case Ended => None
  }

  // ----- all steps -----

  datatype Action =
    | CallStop(r: nat)
    | StepStop(c: nat, raises: bool)
    | StepMonitor
    | QuitMonitor                             // the monitor sees that it has been told to stop
    | ReviveMonitor                           // the application starts a monitor that has ended again
    | CallStart(r: nat)
    | Launch(r: nat)
    | EndThread(r: nat)                       // after the process has exited, or could not be launched
    | Exit(r: nat)
    | Obey(r: nat, m: Message)
    | Write(record: nat, status: Status)      // plugins, the heartbeat monitor and the web interface
    | Forget(record: nat)                     // a deleted instance record
    | Load(name: string, record: nat)
    | Unregister(name: string)
    | StopRemote(name: string)                // a `_stop` without a local runner

  function Apply(s: State, a: Action): Option<State> {
    match a
    case CallStop(r) => if r < |s.runners| then Some(s.(stops := s.stops + [StopCall(r, AtStart, true)])) else None
    case StepStop(c, raises) => StopStep(s, c, raises)
    case StepMonitor => MonitorStep(s)
    case QuitMonitor => if s.monitor.Idle? || s.monitor.Looking? then Some(s.(monitor := Ended)) else None
    case ReviveMonitor => if s.monitor.Ended? then Some(s.(monitor := Idle)) else None
    case CallStart(r) => if r < |s.runners| then Some(Start(s, r).0) else None
    case Launch(r) =>
      if r < |s.runners| && s.runners[r].thread.Working? && s.runners[r].process.Unlaunched? then
        Some(SetRunner(s, r, s.runners[r].(process := Living))) else None
    case EndThread(r) =>
      if r < |s.runners| && s.runners[r].thread.Working? && !s.runners[r].process.Living? then
        Some(SetRunner(s, r, s.runners[r].(thread := Thread.Finished))) else None
    case Exit(r) =>
      if r < |s.runners| && s.runners[r].process.Living? then
        Some(SetRunner(s, r, s.runners[r].(process := Gone(OnItsOwn)))) else None
    case Obey(r, m) =>
      if r < |s.runners| && s.runners[r].process.Living? && m in s.mail && m.address == s.runners[r].name then
        Some(SetRunner(s, r, s.runners[r].(process := Gone(AskedFor(m.sender))))) else None
    case Write(record, status) => Some(s.(statuses := s.statuses[record := status]))
    case Forget(record) => Some(s.(statuses := s.statuses - {record}))
    case Load(name, record) => Some(Register(s, s.registry, name, record, Fresh))
    case Unregister(name) => Some(s.(registry := Without(s, s.registry, name)))
    case StopRemote(name) => Some(s.(mail := s.mail + {Message(name, None)}))
  }

  function Exec(s: State, actions: seq<Action>): Option<State>
    decreases |actions|
  {
    if actions == [] then Some(s) else
      match Apply(s, actions[0])
      case None => None
      case Some(s') => Exec(s', actions[1..])
  }

  ghost predicate Reachable(s: State) {
    exists actions :: Exec(INIT, actions) == Some(s)
  }

  // ----- the invariant -----

  /** A stop of runner r through r itself is what ended its process. */
  predicate StoppedOnPurpose(s: State, r: nat)
    requires r < |s.runners|
  {
    s.runners[r].process == Gone(AskedFor(Some(r))) || s.runners[r].process == Gone(Killed(true))
  }

  ghost predicate MailInv(s: State) {
    forall m | m in s.mail && m.sender.Some? :: m.sender.value < |s.runners| && s.runners[m.sender.value].stopFlag
  }

  ghost predicate RunnerInv(s: State) {
    forall r | 0 <= r < |s.runners| && StoppedOnPurpose(s, r) :: s.runners[r].stopFlag
  }

  /** Past the assignment of the flag, and not because of an exception, the flag is set. */
  predicate PastFlag(call: StopCall) {
    call.point in {AtSend, AtJoin} || (call.point == AtFinally(false) && call.clean)
  }

  ghost predicate StopInv(s: State) {
    forall c | 0 <= c < |s.stops| ::
      s.stops[c].target < |s.runners| && (PastFlag(s.stops[c]) ==> s.runners[s.stops[c].target].stopFlag)
  }

  /** The runner that the monitor is about to restart or to give up. */
  predicate Holds(m: MonitorPoint) {
    m.Committed? || m.SawRunning? || m.SawOther? || m.SawStarting? || m.Restarting?
  }

  ghost predicate MonitorInv(s: State) {
    Holds(s.monitor) ==>
      && s.monitor.r < |s.runners| && s.runners[s.monitor.r].process.Gone? && !StoppedOnPurpose(s, s.monitor.r)
      && (s.monitor.Restarting? ==> s.monitor.call < |s.stops| && s.stops[s.monitor.call].target == s.monitor.r)
  }

  /** A living process is waited for by its thread. */
  ghost predicate ThreadInv(s: State) {
    forall r | 0 <= r < |s.runners| && s.runners[r].process.Living? :: s.runners[r].thread.Working?
  }

  ghost predicate Inv(s: State) {
    MailInv(s) && RunnerInv(s) && StopInv(s) && MonitorInv(s) && ThreadInv(s)
  }

  /** What no step takes back: runners stay, keep their names, stay flagged and stay dead. */
  ghost predicate Grows(s: State, t: State) {
    && |s.runners| <= |t.runners|
    && s.mail <= t.mail
    && forall r | 0 <= r < |s.runners| ::
         && t.runners[r].name == s.runners[r].name
         && (s.runners[r].stopFlag ==> t.runners[r].stopFlag)
         && (s.runners[r].process.Gone? ==> t.runners[r].process == s.runners[r].process)
  }

  // ----- every step grows the state -----

  lemma StartGrows(s: State, r: nat)
    requires r < |s.runners|
    ensures Grows(s, Start(s, r).0)
    ensures Start(s, r).0.mail == s.mail && Start(s, r).0.stops == s.stops && Start(s, r).0.monitor == s.monitor
    ensures forall i | |s.runners| <= i < |Start(s, r).0.runners| :: Start(s, r).0.runners[i].process == Unlaunched
    ensures forall i | 0 <= i < |s.runners| :: Start(s, r).0.runners[i].process == s.runners[i].process
    ensures forall i | 0 <= i < |s.runners| && (i != r || s.runners[i].thread != Fresh) ::
        Start(s, r).0.runners[i] == s.runners[i]
    ensures Start(s, r).0.runners[r].thread in {s.runners[r].thread, Working}
  {
  }

  lemma StopStepGrows(s: State, c: nat, raises: bool)
    ensures StopStep(s, c, raises).Some? ==> Grows(s, StopStep(s, c, raises).value)
  {
  }

  lemma MonitorStepGrows(s: State)
    ensures MonitorStep(s).Some? ==> Grows(s, MonitorStep(s).value)
  {
    if s.monitor.Restarting? && s.monitor.r < |s.runners| {
      StartGrows(s, s.monitor.r);
    }
  }

  lemma ApplyGrows(s: State, a: Action)
    ensures Apply(s, a).Some? ==> Grows(s, Apply(s, a).value)
  {
    match a {
      case StepStop(c, raises) => StopStepGrows(s, c, raises);
      case StepMonitor => MonitorStepGrows(s);
      case CallStart(r) => if r < |s.runners| { StartGrows(s, r); }
      case _ =>
    }
  }

  lemma GrowsTransitive(s: State, t: State, u: State)
    requires Grows(s, t) && Grows(t, u)
    ensures Grows(s, u)
  {
  }

  lemma {:induction false} ExecGrows(s: State, actions: seq<Action>)
    ensures Exec(s, actions).Some? ==> Grows(s, Exec(s, actions).value)
    decreases |actions|
  {
    if actions != [] && Apply(s, actions[0]).Some? {
      var t := Apply(s, actions[0]).value;
      ApplyGrows(s, actions[0]);
      ExecGrows(t, actions[1..]);
      if Exec(t, actions[1..]).Some? {
        GrowsTransitive(s, t, Exec(t, actions[1..]).value);
      }
    }
  }

  // ----- every step keeps the invariant -----

  /** Steps that change neither runners nor messages nor calls nor the point of the monitor. */
  lemma QuietStepKeepsInv(s: State, t: State)
    requires Inv(s) && Grows(s, t)
    requires t.mail == s.mail && t.stops == s.stops && t.monitor == s.monitor
    requires forall r | |s.runners| <= r < |t.runners| :: t.runners[r].process == Unlaunched
    requires forall r | 0 <= r < |s.runners| :: t.runners[r].process == s.runners[r].process
    requires forall r | 0 <= r < |s.runners| :: t.runners[r].thread in {s.runners[r].thread, Working}
    ensures Inv(t)
  {
  }

  /** A process exits, for a reason that fits its flag. */
  lemma ExitKeepsInv(s: State, r: nat, cause: Cause)
    requires Inv(s) && r < |s.runners| && s.runners[r].process.Living?
    requires cause == AskedFor(Some(r)) || cause == Killed(true) ==> s.runners[r].stopFlag
    ensures Inv(SetRunner(s, r, s.runners[r].(process := Gone(cause))))
  {
  }

  lemma MovedPointKeepsInv(s: State, c: nat, call: StopCall)
    requires Inv(s) && c < |s.stops| && call.target == s.stops[c].target
    requires PastFlag(call) ==> s.runners[call.target].stopFlag
    ensures Inv(SetPoint(s, c, call))
  {
  }

  lemma FlagKeepsInv(s: State, r: nat)
    requires Inv(s) && r < |s.runners|
    ensures Inv(SetRunner(s, r, s.runners[r].(stopFlag := true)))
  {
    var t := SetRunner(s, r, s.runners[r].(stopFlag := true));
    assert forall i | 0 <= i < |s.runners| :: StoppedOnPurpose(t, i) == StoppedOnPurpose(s, i);
  }

  lemma MailKeepsInv(s: State, m: Message)
    requires Inv(s) && (m.sender.Some? ==> m.sender.value < |s.runners| && s.runners[m.sender.value].stopFlag)
    ensures Inv(s.(mail := s.mail + {m}))
  {
  }

  lemma StatusKeepsInv(s: State, record: nat, status: Status)
    requires Inv(s)
    ensures Inv(SetStatus(s, record, status))
  {
  }

  lemma FinallyKeepsInv(s: State, c: nat, returning: bool)
    requires Inv(s) && c < |s.stops| && s.stops[c].target < |s.runners|
    ensures Inv(FinallyStep(s, c, returning))
  {
    var call, r := s.stops[c], s.stops[c].target;
    var runner := s.runners[r];
    if !runner.thread.Working? {
      MovedPointKeepsInv(s, c, call.(point := if returning || call.clean then Returned else AtDead));
    } else if runner.process.Living? {
      ExitKeepsInv(s, r, Killed(runner.stopFlag));
      MovedPointKeepsInv(SetRunner(s, r, runner.(process := Gone(Killed(runner.stopFlag)))), c,
                         StopCall(r, if returning then Returned else AtDead, false));
    } else {
      MovedPointKeepsInv(s, c, StopCall(r, if returning then Returned else AtDead, false));
    }
  }

  lemma StopStepKeepsInv(s: State, c: nat, raises: bool)
    requires Inv(s)
    ensures StopStep(s, c, raises).Some? ==> Inv(StopStep(s, c, raises).value)
  {
    if c < |s.stops| && s.stops[c].target < |s.runners| {
      var call, r := s.stops[c], s.stops[c].target;
      var runner := s.runners[r];
      if raises {
        MovedPointKeepsInv(s, c, StopCall(r, AtFinally(false), false));
      } else {
        match call.point {
          case AtStart =>
            var status := StatusOf(s, runner.record);
            MovedPointKeepsInv(s, c, call.(point :=
              if AlreadyStopped(status) then AtFinally(true) else if status == UNKNOWN then AtFlag else AtMark));
          case AtMark =>
            StatusKeepsInv(s, runner.record, STOPPING);
            MovedPointKeepsInv(SetStatus(s, runner.record, STOPPING), c, call.(point := AtFlag));
          case AtFlag =>
            FlagKeepsInv(s, r);
            MovedPointKeepsInv(SetRunner(s, r, runner.(stopFlag := true)), c, call.(point := AtSend));
          case AtSend =>
            assert PastFlag(call);
            MailKeepsInv(s, Message(runner.name, Some(r)));
            MovedPointKeepsInv(s.(mail := s.mail + {Message(runner.name, Some(r))}), c, call.(point := AtJoin));
          case AtJoin =>
            MovedPointKeepsInv(s, c, call.(point := AtFinally(false)));
          case AtFinally(returning) =>
            FinallyKeepsInv(s, c, returning);
          case AtDead =>
            StatusKeepsInv(s, runner.record, DEAD);
            MovedPointKeepsInv(SetStatus(s, runner.record, DEAD), c, call.(point := Returned));
          case Returned =>
        }
      }
    }
  }

  lemma MonitorStepKeepsInv(s: State)
    requires Inv(s)
    ensures MonitorStep(s).Some? ==> Inv(MonitorStep(s).value)
  {
    if s.monitor.Restarting? && MonitorStep(s).Some? {
      StartGrows(s, s.monitor.r);
      QuietStepKeepsInv(s, Start(s, s.monitor.r).0);
    }
  }

  lemma ApplyKeepsInv(s: State, a: Action)
    requires Inv(s)
    ensures Apply(s, a).Some? ==> Inv(Apply(s, a).value)
  {
    ApplyGrows(s, a);
    if Apply(s, a).Some? {
      var t := Apply(s, a).value;
      match a {
        case StepStop(c, raises) => StopStepKeepsInv(s, c, raises);
        case StepMonitor => MonitorStepKeepsInv(s);
        case CallStart(r) => StartGrows(s, r); QuietStepKeepsInv(s, t);
        case Launch(r) =>
        case Exit(r) => ExitKeepsInv(s, r, OnItsOwn);
        case Obey(r, m) => ExitKeepsInv(s, r, AskedFor(m.sender));
        case CallStop(r) =>
        case StopRemote(name) =>
        case QuitMonitor =>
        case ReviveMonitor =>
        case EndThread(r) =>
        case _ => QuietStepKeepsInv(s, t);
      }
    }
  }

  lemma {:induction false} ExecKeepsInv(s: State, actions: seq<Action>)
    requires Inv(s)
    ensures Exec(s, actions).Some? ==> Inv(Exec(s, actions).value)
    decreases |actions|
  {
    if actions != [] && Apply(s, actions[0]).Some? {
      ApplyKeepsInv(s, actions[0]);
      ExecKeepsInv(Apply(s, actions[0]).value, actions[1..]);
    }
  }

  lemma ReachableInv(s: State)
    requires Reachable(s)
    ensures Inv(s)
  {
    var actions :| Exec(INIT, actions) == Some(s);
    ExecKeepsInv(INIT, actions);
  }

  // ----- what the protocol guarantees -----

  /** Flag before message: whenever stop_plugin has sent `_stop` for a runner, its stop flag is set. */
  lemma SentMeansFlagged(s: State, m: Message)
    requires Reachable(s) && m in s.mail && m.sender.Some?
    ensures m.sender.value < |s.runners| && s.runners[m.sender.value].stopFlag
  {
    ReachableInv(s);
  }

  /** The monitor is about to restart runner r. */
  predicate RestartsNow(s: State, r: nat) {
    s.monitor.Restarting? && s.monitor.r == r
  }

  /** The monitor picks runner r for a restart or for giving it up. */
  predicate PicksNow(s: State, r: nat) {
    s.monitor.Looking? && MonitorStep(s).Some? && MonitorStep(s).value.monitor.Committed?
        && MonitorStep(s).value.monitor.r == r
  }

  /** Safety of a stop: in no reachable state is the monitor about to restart a runner whose process
      exited because of the `_stop` that was sent for it, or was killed after its flag was set. */
  lemma StoppedRunnersAreNotRestarted(s: State, r: nat)
    requires Reachable(s) && RestartsNow(s, r)
    ensures r < |s.runners| && s.runners[r].process.Gone?
    ensures s.runners[r].process.cause != AskedFor(Some(r)) && s.runners[r].process.cause != Killed(true)
  {
    ReachableInv(s);
  }

  /** Over whole runs: from the moment `_stop` has been sent for r, however the run goes on, no monitor
      pass picks r any more. */
  lemma NeverPickedAfterStop(s: State, m: Message, r: nat, actions: seq<Action>, t: State)
    requires Reachable(s) && m in s.mail && m.sender == Some(r)
    requires Exec(s, actions) == Some(t)
    ensures !PicksNow(t, r)
  {
    ReachableInv(s);
    ExecGrows(s, actions);
  }

  predicate HoldsRunner(s: State, r: nat) {
    Holds(s.monitor) && s.monitor.r == r
  }

  /** A flagged runner that the monitor does not hold is never picked, so it stays that way. */
  lemma ApplyKeepsReleased(s: State, a: Action, r: nat)
    requires r < |s.runners| && s.runners[r].stopFlag && !HoldsRunner(s, r)
    ensures Apply(s, a).Some? ==> !HoldsRunner(Apply(s, a).value, r)
  {
    if a.StepMonitor? && s.monitor.Restarting? && s.monitor.r < |s.runners| {
      StartGrows(s, s.monitor.r);
    }
  }

  lemma {:induction false} ExecKeepsReleased(s: State, actions: seq<Action>, r: nat)
    requires r < |s.runners| && s.runners[r].stopFlag && !HoldsRunner(s, r)
    ensures Exec(s, actions).Some? ==> !HoldsRunner(Exec(s, actions).value, r)
    decreases |actions|
  {
    if actions != [] && Apply(s, actions[0]).Some? {
      ApplyKeepsReleased(s, actions[0], r);
      ApplyGrows(s, actions[0]);
      ExecKeepsReleased(Apply(s, actions[0]).value, actions[1..], r);
    }
  }

  /** Over whole runs: once a runner is flagged while its process has not exited, the monitor never
      restarts it and never gives it up, however the process ends and whatever is written to its
      status afterwards. */
  lemma FlaggedInTimeIsNeverRestarted(s: State, r: nat, actions: seq<Action>, t: State)
    requires Reachable(s) && r < |s.runners| && s.runners[r].stopFlag && !s.runners[r].process.Gone?
    requires Exec(s, actions) == Some(t)
    ensures !HoldsRunner(t, r) && !RestartsNow(t, r)
  {
    ReachableInv(s);
    ExecKeepsReleased(s, actions, r);
  }

  // ----- the registry over whole runs -----

  /** The registry lists existing runners, no two of them with the same unique name. */
  ghost predicate DistinctRegistry(s: State, registry: seq<nat>) {
    && (forall i | 0 <= i < |registry| :: registry[i] < |s.runners|)
    && forall i, j | 0 <= i < j < |registry| :: s.runners[registry[i]].name != s.runners[registry[j]].name
  }

  lemma {:induction false} WithoutIsPart(s: State, registry: seq<nat>, name: string)
    ensures forall r | r in Without(s, registry, name) :: r in registry
  {
    if registry != [] {
      WithoutIsPart(s, registry[1..], name);
    }
  }

  lemma PartListsNoMore(s: State, part: seq<nat>, registry: seq<nat>, name: string)
    requires (forall r | r in part :: r in registry) && !Lists(s, registry, name)
    ensures !Lists(s, part, name)
  {
    forall i | 0 <= i < |part| ensures !(part[i] < |s.runners| && s.runners[part[i]].name == name) {
      assert part[i] in registry;
      var k :| 0 <= k < |registry| && registry[k] == part[i];
    }
  }

  lemma DistinctRest(s: State, registry: seq<nat>)
    requires DistinctRegistry(s, registry) && registry != []
    ensures DistinctRegistry(s, registry[1..]) && registry[0] < |s.runners|
        && !Lists(s, registry[1..], s.runners[registry[0]].name)
  {
    forall i | 0 <= i < |registry[1..]| ensures registry[1..][i] == registry[i + 1] {
    }
  }

  lemma DistinctCons(s: State, head: nat, rest: seq<nat>)
    requires head < |s.runners| && DistinctRegistry(s, rest) && !Lists(s, rest, s.runners[head].name)
    ensures DistinctRegistry(s, [head] + rest)
  {
  }

  lemma {:induction false} WithoutKeepsDistinct(s: State, registry: seq<nat>, name: string)
    requires DistinctRegistry(s, registry)
    ensures DistinctRegistry(s, Without(s, registry, name)) && !Lists(s, Without(s, registry, name), name)
  {
    if registry != [] {
      var head, tail := registry[0], registry[1..];
      DistinctRest(s, registry);
      if s.runners[head].name != name {
        WithoutKeepsDistinct(s, tail, name);
        WithoutIsPart(s, tail, name);
        PartListsNoMore(s, Without(s, tail, name), tail, s.runners[head].name);
        DistinctCons(s, head, Without(s, tail, name));
      }
    }
  }

  lemma RegisterKeepsDistinct(s: State, registry: seq<nat>, name: string, record: nat, thread: Thread)
    requires DistinctRegistry(s, registry)
    ensures var t := Register(s, registry, name, record, thread); DistinctRegistry(t, t.registry)
  {
    var t := Register(s, registry, name, record, thread);
    forall i, j | 0 <= i < j < |t.registry| ensures t.runners[t.registry[i]].name != t.runners[t.registry[j]].name {
      if j < |registry| {
        assert s.runners[registry[i]].name != s.runners[registry[j]].name;
      }
    }
  }

  lemma StartKeepsDistinct(s: State, r: nat)
    requires DistinctRegistry(s, s.registry) && r < |s.runners|
    ensures DistinctRegistry(Start(s, r).0, Start(s, r).0.registry)
  {
    var runner := s.runners[r];
    WithoutKeepsDistinct(s, s.registry, runner.name);
    RegisterKeepsDistinct(s, Without(s, s.registry, runner.name), runner.name, runner.record, Working);
  }

  lemma SameRegistryKeepsDistinct(s: State, t: State)
    requires DistinctRegistry(s, s.registry) && Grows(s, t) && t.registry == s.registry
    ensures DistinctRegistry(t, t.registry)
  {
    forall i, j | 0 <= i < j < |t.registry| ensures t.runners[t.registry[i]].name != t.runners[t.registry[j]].name {
      assert s.runners[s.registry[i]].name != s.runners[s.registry[j]].name;
    }
  }

  lemma StepsKeepRegistry(s: State, a: Action)
    requires !a.CallStart? && !a.Load? && !a.Unregister? && !(a.StepMonitor? && s.monitor.Restarting?)
    ensures Apply(s, a).Some? ==> Apply(s, a).value.registry == s.registry
  {
  }

  lemma ApplyKeepsDistinct(s: State, a: Action)
    requires DistinctRegistry(s, s.registry) && Apply(s, a).Some?
    ensures var t := Apply(s, a).value; DistinctRegistry(t, t.registry)
  {
    if a.CallStart? {
      StartKeepsDistinct(s, a.r);
    } else if a.StepMonitor? && s.monitor.Restarting? {
      StartKeepsDistinct(s, s.monitor.r);
    } else if a.Load? {
      RegisterKeepsDistinct(s, s.registry, a.name, a.record, Fresh);
    } else if a.Unregister? {
      WithoutKeepsDistinct(s, s.registry, a.name);
    } else {
      ApplyGrows(s, a);
      StepsKeepRegistry(s, a);
      SameRegistryKeepsDistinct(s, Apply(s, a).value);
    }
  }

  lemma {:induction false} ExecKeepsDistinct(s: State, actions: seq<Action>)
    requires DistinctRegistry(s, s.registry) && Exec(s, actions).Some?
    ensures var t := Exec(s, actions).value; DistinctRegistry(t, t.registry)
    decreases |actions|
  {
    if actions != [] {
      ApplyKeepsDistinct(s, actions[0]);
      ExecKeepsDistinct(Apply(s, actions[0]).value, actions[1..]);
    }
  }

  /** The unique-name discipline survives every interleaving in which removing and registering a runner
      are single steps: in every reachable state the registry holds at most one runner of each unique
      name. Module RegistryRace takes registering apart. */
  lemma NamesStayUnique(s: State)
    requires Reachable(s)
    ensures DistinctRegistry(s, s.registry)
  {
    var actions :| Exec(INIT, actions) == Some(s);
    ExecKeepsDistinct(INIT, actions);
  }

  // ----- runs one after the other -----

  lemma {:induction false} ExecConcat(s: State, first: seq<Action>, second: seq<Action>)
    requires Exec(s, first).Some?
    ensures Exec(s, first + second) == Exec(Exec(s, first).value, second)
    decreases |first|
  {
    if first == [] {
      assert first + second == second;
    } else {
      assert (first + second)[0] == first[0] && (first + second)[1..] == first[1..] + second;
      ExecConcat(Apply(s, first[0]).value, first[1..], second);
    }
  }

  lemma ExecOne(s: State, a: Action)
    ensures Exec(s, [a]) == Apply(s, a)
  {
    assert [a][1..] == [];
  }

  /** A run, one step further. */
  lemma ExecSnoc(s: State, actions: seq<Action>, a: Action, t: State)
    requires Exec(s, actions).Some? && Apply(Exec(s, actions).value, a) == Some(t)
    ensures Exec(s, actions + [a]) == Some(t)
  {
    ExecConcat(s, actions, [a]);
    ExecOne(Exec(s, actions).value, a);
  }
}

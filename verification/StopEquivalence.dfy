/** The small steps of stop_plugin against the single step of StopPlugin: every run of one call without
    interference from others ends as StopPlugin says for some Shutdown, and every Shutdown has such a
    run. */
module StopEquivalence {
  import opened Wrappers
  import opened Registry
  import opened PluginsManager
  import opened StopProtocol

  // ----- runs without interference -----

  /** A step of the call itself, of the process and thread of its runner, or a report of that process
      that it has stopped. */
  predicate OwnStep(s0: State, c: nat, r: nat, a: Action)
    requires r < |s0.runners|
  {
    || (a.StepStop? && a.c == c)
    || a == Exit(r)
    || (a.Obey? && a.r == r)
    || a == EndThread(r)
    || (a == Write(s0.runners[r].record, STOPPED) && s0.runners[r].record in s0.statuses)
  }

  predicate OwnSteps(s0: State, c: nat, r: nat, actions: seq<Action>)
    requires r < |s0.runners|
  {
    forall i | 0 <= i < |actions| :: OwnStep(s0, c, r, actions[i])
  }

  /** A call for runner r begins, whose process is waited for by its thread if it lives. */
  predicate Begins(s0: State, c: nat, r: nat) {
    && c < |s0.stops| && r < |s0.runners| && s0.stops[c] == StopCall(r, AtStart, true)
    && (s0.runners[r].process.Living? ==> s0.runners[r].thread.Working?)
  }

  /** What the single step says about the state t in which the call has returned. */
  predicate AsInOneStep(s0: State, c: nat, r: nat, during: Shutdown, t: State)
    requires r < |s0.runners|
  {
    var before := s0.runners[r];
    var read := StatusRead(s0.statuses, before.record, during);
    && c < |t.stops| && t.stops[c].point == Returned
    && |t.runners| == |s0.runners|
    && t.statuses == Written(s0.statuses, before.record, AfterStop(read, during, before.thread.Working?))
    && var after := t.runners[r];
       && after.stopFlag == (before.stopFlag || SetsFlag(read, during))
       && after.thread.Working? == (before.thread.Working? && during.thread.StillWorking?)
       && after.process.Unlaunched? == before.process.Unlaunched?
       && !after.process.Living?
  }

  // ----- how far a run has got -----

  /** What has happened so far, one step later. */
  function Next(d: Shutdown, point: StopPoint, a: Action): Shutdown {
    match a
    case StepStop(_, raises) =>
      if raises then
        d.(raised := if point.AtStart? then OnReading
                     else if point.AtMark? || point.AtFlag? then BeforeFlag
                     else AfterFlag)
      else if point.AtMark? || point.AtDead? then d.(reportedLast := false)
      else d
    case EndThread(_) => d.(thread := if point.AtDead? || point.Returned? then Late else InTime)
    case Write(_, _) => if point.AtStart? then d.(reportedFirst := true) else d.(reportedLast := true)
    case _ => d
  }

  /** The status in the record if the call has written STOPPING into one whose status was known. */
  function Marked(read: Status, d: Shutdown): Status {
    if d.reportedLast then STOPPED else if read == UNKNOWN then UNKNOWN else STOPPING
  }

  predicate SameRunner(s0: State, r: nat, d: Shutdown, s: State)
    requires r < |s0.runners|
  {
    && |s.runners| == |s0.runners|
    && s.runners[r].record == s0.runners[r].record
    && s.runners[r].process.Unlaunched? == s0.runners[r].process.Unlaunched?
    && (s.runners[r].process.Living? ==> s.runners[r].thread.Working?)
    && s.runners[r].thread.Working? == (s0.runners[r].thread.Working? && d.thread.StillWorking?)
  }

  /** The record holds this status, if it exists, and nothing else has changed. */
  predicate Holding(s0: State, r: nat, s: State, status: Status)
    requires r < |s0.runners|
  {
    s.statuses == Written(s0.statuses, s0.runners[r].record, status)
  }

  /** The call c is where it is after what `d` says. */
  predicate Phase(s0: State, c: nat, r: nat, d: Shutdown, s: State)
    requires r < |s0.runners|
  {
    && c < |s.stops| && s.stops[c].target == r
    && SameRunner(s0, r, d, s)
    && var call, before, flagged := s.stops[c], s0.runners[r], s.runners[r].stopFlag;
       var read := StatusRead(s0.statuses, before.record, d);
       match call.point
       case AtStart =>
         && call.clean && d.raised.Nowhere? && !d.thread.Late? && !d.reportedLast
         && Holding(s0, r, s, read) && flagged == before.stopFlag
       case AtMark =>
         && call.clean && d.raised.Nowhere? && !d.thread.Late? && !AlreadyStopped(read) && read != UNKNOWN
         && Holding(s0, r, s, if d.reportedLast then STOPPED else read) && flagged == before.stopFlag
       case AtFlag =>
         && call.clean && d.raised.Nowhere? && !d.thread.Late? && !AlreadyStopped(read)
         && Holding(s0, r, s, Marked(read, d)) && flagged == before.stopFlag
       case AtSend =>
         && call.clean && d.raised.Nowhere? && !d.thread.Late? && !AlreadyStopped(read)
         && Holding(s0, r, s, Marked(read, d)) && flagged
       case AtJoin =>
         && call.clean && d.raised.Nowhere? && !d.thread.Late? && !AlreadyStopped(read)
         && Holding(s0, r, s, Marked(read, d)) && flagged
       case AtFinally(returning) =>
         && !d.thread.Late?
         && (returning ==> call.clean && AlreadyStopped(read))
         && (!returning ==> d.raised.OnReading? || !AlreadyStopped(read))
         && call.clean == d.raised.Nowhere?
         && Holding(s0, r, s, if !call.clean then StatusOf(s, before.record)
                              else if !returning then Marked(read, d)
                              else if d.reportedLast then STOPPED else read)
         && flagged == (before.stopFlag || SetsFlag(read, d))
       case AtDead =>
         && !call.clean && !s.runners[r].process.Living?
         && (d.raised.OnReading? || !AlreadyStopped(read))
         && (!d.raised.Nowhere? || (before.thread.Working? && !d.thread.InTime?))
         && Holding(s0, r, s, StatusOf(s, before.record))
         && flagged == (before.stopFlag || SetsFlag(read, d))
       case Returned => AsInOneStep(s0, c, r, d, s)
  }

  // ----- every step keeps the account -----

  lemma RaiseKeepsPhase(s0: State, c: nat, r: nat, d: Shutdown, s: State)
    requires r < |s0.runners| && Phase(s0, c, r, d, s) && StopStep(s, c, true).Some?
    ensures Phase(s0, c, r, Next(d, s.stops[c].point, StepStop(c, true)), StopStep(s, c, true).value)
  {
  }

  lemma EarlyStepKeepsPhase(s0: State, c: nat, r: nat, d: Shutdown, s: State)
    requires r < |s0.runners| && Phase(s0, c, r, d, s) && s.stops[c].point in {AtStart, AtMark, AtFlag}
    ensures Phase(s0, c, r, Next(d, s.stops[c].point, StepStop(c, false)), StopStep(s, c, false).value)
  {
  }

  lemma LateStepKeepsPhase(s0: State, c: nat, r: nat, d: Shutdown, s: State)
    requires r < |s0.runners| && Phase(s0, c, r, d, s) && s.stops[c].point in {AtSend, AtJoin, AtDead}
    ensures Phase(s0, c, r, Next(d, s.stops[c].point, StepStop(c, false)), StopStep(s, c, false).value)
  {
  }

  lemma CallKeepsPhase(s0: State, c: nat, r: nat, d: Shutdown, s: State, raises: bool)
    requires r < |s0.runners| && Phase(s0, c, r, d, s) && StopStep(s, c, raises).Some?
    ensures Phase(s0, c, r, Next(d, s.stops[c].point, StepStop(c, raises)), StopStep(s, c, raises).value)
  {
    if raises {
      RaiseKeepsPhase(s0, c, r, d, s);
    } else if s.stops[c].point.AtFinally? {
      FinallyKeepsPhase(s0, c, r, d, s, s.stops[c].point.returning);
    } else if s.stops[c].point in {AtStart, AtMark, AtFlag} {
      EarlyStepKeepsPhase(s0, c, r, d, s);
    } else {
      LateStepKeepsPhase(s0, c, r, d, s);
    }
  }

  lemma FinallyKeepsPhase(s0: State, c: nat, r: nat, d: Shutdown, s: State, returning: bool)
    requires r < |s0.runners| && Phase(s0, c, r, d, s) && s.stops[c].point == AtFinally(returning)
    ensures Phase(s0, c, r, d, FinallyStep(s, c, returning))
  {
  }

  lemma ProcessKeepsPhase(s0: State, c: nat, r: nat, d: Shutdown, s: State, a: Action)
    requires r < |s0.runners| && Phase(s0, c, r, d, s) && Apply(s, a).Some?
    requires a == Exit(r) || (a.Obey? && a.r == r) || a == EndThread(r)
    ensures Phase(s0, c, r, Next(d, s.stops[c].point, a), Apply(s, a).value)
  {
  }

  lemma ReportKeepsPhase(s0: State, c: nat, r: nat, d: Shutdown, s: State)
    requires r < |s0.runners| && Phase(s0, c, r, d, s) && s0.runners[r].record in s0.statuses
    ensures var a := Write(s0.runners[r].record, STOPPED);
            Phase(s0, c, r, Next(d, s.stops[c].point, a), Apply(s, a).value)
  {
    var record := s0.runners[r].record;
    assert s.statuses[record := STOPPED] == Written(s0.statuses, record, STOPPED);
  }

  lemma StepKeepsPhase(s0: State, c: nat, r: nat, d: Shutdown, s: State, a: Action)
    requires r < |s0.runners| && Phase(s0, c, r, d, s) && OwnStep(s0, c, r, a) && Apply(s, a).Some?
    ensures Phase(s0, c, r, Next(d, s.stops[c].point, a), Apply(s, a).value)
  {
    match a {
      case StepStop(_, raises) => CallKeepsPhase(s0, c, r, d, s, raises);
      case Write(_, _) => ReportKeepsPhase(s0, c, r, d, s);
      case _ => ProcessKeepsPhase(s0, c, r, d, s, a);
    }
  }

  lemma {:induction false} RunKeepsPhase(s0: State, c: nat, r: nat, d: Shutdown, s: State, actions: seq<Action>)
      returns (d': Shutdown)
    requires r < |s0.runners| && Phase(s0, c, r, d, s) && OwnSteps(s0, c, r, actions) && Exec(s, actions).Some?
    ensures Phase(s0, c, r, d', Exec(s, actions).value)
    decreases |actions|
  {
    if actions == [] {
      d' := d;
    } else {
      StepKeepsPhase(s0, c, r, d, s, actions[0]);
      d' := RunKeepsPhase(s0, c, r, Next(d, s.stops[c].point, actions[0]), Apply(s, actions[0]).value, actions[1..]);
    }
  }

  lemma BeginsInPhase(s0: State, c: nat, r: nat)
    requires Begins(s0, c, r)
    ensures Phase(s0, c, r, UNDISTURBED, s0)
  {
    var record := s0.runners[r].record;
    assert record in s0.statuses ==> s0.statuses[record := s0.statuses[record]] == s0.statuses;
  }

  /** Every run of one call without interference that returns ends as the single step says, for some
      account of what happened during the call. */
  lemma EveryStopIsStopPlugin(s0: State, c: nat, r: nat, actions: seq<Action>, t: State)
    requires Begins(s0, c, r) && OwnSteps(s0, c, r, actions)
    requires Exec(s0, actions) == Some(t) && c < |t.stops| && t.stops[c].point == Returned
    ensures exists during :: AsInOneStep(s0, c, r, during, t)
  {
    BeginsInPhase(s0, c, r);
    var during := RunKeepsPhase(s0, c, r, UNDISTURBED, s0, actions);
  }

  // ----- every account has a run -----

  /** A run of own steps that leads to t, with the account d. */
  predicate Leads(s0: State, c: nat, r: nat, actions: seq<Action>, d: Shutdown, t: State)
    requires r < |s0.runners|
  {
    OwnSteps(s0, c, r, actions) && Exec(s0, actions) == Some(t) && Phase(s0, c, r, d, t)
  }

  lemma Take(s0: State, c: nat, r: nat, actions: seq<Action>, d: Shutdown, s: State, a: Action) returns (t: State)
    requires r < |s0.runners| && Leads(s0, c, r, actions, d, s) && OwnStep(s0, c, r, a) && Apply(s, a).Some?
    ensures t == Apply(s, a).value && Leads(s0, c, r, actions + [a], Next(d, s.stops[c].point, a), t)
  {
    t := Apply(s, a).value;
    StepKeepsPhase(s0, c, r, d, s, a);
    ExecSnoc(s0, actions, a, t);
  }

  /** From the reading of the status to the finally block. */
  lemma ReachFinally(s0: State, c: nat, r: nat, first: seq<Action>, d: Shutdown, s: State, raised: RaisePoint)
    returns (actions: seq<Action>, t: State)
    requires r < |s0.runners| && Leads(s0, c, r, first, d, s) && s.stops[c].point.AtStart?
    requires raised.OnReading? || !AlreadyStopped(StatusRead(s0.statuses, s0.runners[r].record, d))
    ensures Leads(s0, c, r, actions, d.(raised := raised), t)
    ensures t.stops[c].point == AtFinally(false) && t.runners[r].process == s.runners[r].process
  {
    if raised.OnReading? {
      t := Take(s0, c, r, first, d, s, StepStop(c, true));
      actions := first + [StepStop(c, true)];
    } else {
      var s1 := Take(s0, c, r, first, d, s, StepStop(c, false));
      actions := first + [StepStop(c, false)];
      if s1.stops[c].point.AtMark? {
        var s2 := Take(s0, c, r, actions, d, s1, StepStop(c, false));
        actions := actions + [StepStop(c, false)];
        s1 := s2;
      }
      actions, t := FromFlag(s0, c, r, actions, d, s1, raised);
    }
  }

  lemma FromFlag(s0: State, c: nat, r: nat, first: seq<Action>, d: Shutdown, s: State, raised: RaisePoint)
    returns (actions: seq<Action>, t: State)
    requires r < |s0.runners| && Leads(s0, c, r, first, d, s) && s.stops[c].point.AtFlag? && !raised.OnReading?
    ensures Leads(s0, c, r, actions, d.(raised := raised), t)
    ensures t.stops[c].point == AtFinally(false) && t.runners[r].process == s.runners[r].process
  {
    if raised.BeforeFlag? {
      t := Take(s0, c, r, first, d, s, StepStop(c, true));
      actions := first + [StepStop(c, true)];
    } else {
      var s1 := Take(s0, c, r, first, d, s, StepStop(c, false));
      var second := first + [StepStop(c, false)];
      var s2 := Take(s0, c, r, second, d, s1, StepStop(c, false));
      var third := second + [StepStop(c, false)];
      t := Take(s0, c, r, third, d, s2, StepStop(c, raised.AfterFlag?));
      actions := third + [StepStop(c, raised.AfterFlag?)];
    }
  }

  lemma ExitIfLiving(s0: State, c: nat, r: nat, first: seq<Action>, d: Shutdown, s: State)
      returns (actions: seq<Action>, t: State)
    requires r < |s0.runners| && Leads(s0, c, r, first, d, s) && s.runners[r].thread.Working?
    ensures Leads(s0, c, r, actions, d, t)
    ensures t.stops == s.stops && t.runners[r].thread.Working? && !t.runners[r].process.Living?
  {
    if s.runners[r].process.Living? {
      t := Take(s0, c, r, first, d, s, Exit(r));
      actions := first + [Exit(r)];
    } else {
      actions, t := first, s;
    }
  }

  /** The process exits if it lives, and its thread finishes. */
  lemma FinishThread(s0: State, c: nat, r: nat, first: seq<Action>, d: Shutdown, s: State)
      returns (actions: seq<Action>, t: State)
    requires r < |s0.runners| && Leads(s0, c, r, first, d, s) && s.runners[r].thread.Working?
    ensures Leads(s0, c, r, actions, d.(thread := if s.stops[c].point in {AtDead, Returned} then Late else InTime), t)
    ensures t.stops == s.stops
  {
    var s1;
    actions, s1 := ExitIfLiving(s0, c, r, first, d, s);
    t := Take(s0, c, r, actions, d, s1, EndThread(r));
    actions := actions + [EndThread(r)];
  }

  /** From the finally block to the return. */
  lemma Return(s0: State, c: nat, r: nat, first: seq<Action>, d: Shutdown, s: State)
      returns (actions: seq<Action>, t: State)
    requires r < |s0.runners| && Leads(s0, c, r, first, d, s) && s.stops[c].point.AtFinally? && !d.reportedLast
    ensures Leads(s0, c, r, actions, d, t) && t.stops[c].point.Returned?
  {
    t := Take(s0, c, r, first, d, s, StepStop(c, false));
    actions := first + [StepStop(c, false)];
    if t.stops[c].point.AtDead? {
      t := Take(s0, c, r, actions, d, t, StepStop(c, false));
      actions := actions + [StepStop(c, false)];
    }
  }

  /** The account without its ending. */
  lemma UpToFinally(s0: State, c: nat, r: nat, during: Shutdown) returns (actions: seq<Action>, d: Shutdown, t: State)
    requires Begins(s0, c, r) && (during.reportedFirst ==> s0.runners[r].record in s0.statuses)
    ensures Leads(s0, c, r, actions, d, t) && t.stops[c].point.AtFinally?
    ensures var early := ReturnsEarly(StatusRead(s0.statuses, s0.runners[r].record, during), during);
            d == Shutdown(if early then Nowhere else during.raised, StillWorking, during.reportedFirst, false)
  {
    BeginsInPhase(s0, c, r);
    assert Leads(s0, c, r, [], UNDISTURBED, s0);
    d, t, actions := UNDISTURBED, s0, [];
    if during.reportedFirst {
      t := Take(s0, c, r, [], d, s0, Write(s0.runners[r].record, STOPPED));
      d, actions := d.(reportedFirst := true), [] + [Write(s0.runners[r].record, STOPPED)];
    }
    var read := StatusRead(s0.statuses, s0.runners[r].record, during);
    if ReturnsEarly(read, during) {
      t := Take(s0, c, r, actions, d, t, StepStop(c, false));
      actions := actions + [StepStop(c, false)];
    } else {
      actions, t := ReachFinally(s0, c, r, actions, d, t, during.raised);
      d := d.(raised := during.raised);
    }
  }

  /** The account without a late ending or a last report. */
  lemma UpToReturn(s0: State, c: nat, r: nat, during: Shutdown) returns (actions: seq<Action>, d: Shutdown, t: State)
    requires Begins(s0, c, r) && (during.reportedFirst ==> s0.runners[r].record in s0.statuses)
    requires during.thread.InTime? ==> s0.runners[r].thread.Working?
    ensures Leads(s0, c, r, actions, d, t) && t.stops[c].point.Returned?
    ensures var early := ReturnsEarly(StatusRead(s0.statuses, s0.runners[r].record, during), during);
            d == Shutdown(if early then Nowhere else during.raised,
                          if during.thread.InTime? then InTime else StillWorking,
                          during.reportedFirst, false)
  {
    actions, d, t := UpToFinally(s0, c, r, during);
    if during.thread.InTime? {
      assert t.runners[r].thread.Working?;
      actions, t := FinishThread(s0, c, r, actions, d, t);
      d := d.(thread := InTime);
    }
    actions, t := Return(s0, c, r, actions, d, t);
  }

  lemma ReportLast(s0: State, c: nat, r: nat, first: seq<Action>, d: Shutdown, s: State)
      returns (actions: seq<Action>, t: State)
    requires r < |s0.runners| && Leads(s0, c, r, first, d, s) && s.stops[c].point.Returned?
    requires s0.runners[r].record in s0.statuses
    ensures Leads(s0, c, r, actions, d.(reportedLast := true), t) && t.stops == s.stops
  {
    t := Take(s0, c, r, first, d, s, Write(s0.runners[r].record, STOPPED));
    actions := first + [Write(s0.runners[r].record, STOPPED)];
  }

  /** A raise that an early return leaves out makes no difference. */
  lemma EarlyReturnForgets(s0: State, c: nat, r: nat, during: Shutdown, t: State)
    requires r < |s0.runners|
    requires ReturnsEarly(StatusRead(s0.statuses, s0.runners[r].record, during), during)
    requires AsInOneStep(s0, c, r, during.(raised := Nowhere), t)
    ensures AsInOneStep(s0, c, r, during, t)
  {
  }

  /** Every account that fits the state has a run of one call without interference, which returns as the
      single step says. */
  lemma StopPluginIsAStop(s0: State, c: nat, r: nat, during: Shutdown) returns (actions: seq<Action>, t: State)
    requires Begins(s0, c, r)
    requires !during.thread.StillWorking? ==> s0.runners[r].thread.Working?
    requires during.reportedFirst || during.reportedLast ==> s0.runners[r].record in s0.statuses
    ensures OwnSteps(s0, c, r, actions) && Exec(s0, actions) == Some(t) && AsInOneStep(s0, c, r, during, t)
  {
    var d: Shutdown;
    actions, d, t := UpToReturn(s0, c, r, during);
    if during.thread.Late? {
      assert t.runners[r].thread.Working?;
      actions, t := FinishThread(s0, c, r, actions, d, t);
      d := d.(thread := Late);
    }
    if during.reportedLast {
      actions, t := ReportLast(s0, c, r, actions, d, t);
      d := d.(reportedLast := true);
    }
    assert AsInOneStep(s0, c, r, d, t);
    if d != during {
      EarlyReturnForgets(s0, c, r, during, t);
    }
  }
}

/** register_plugin looks a name up and appends its runner in two steps, without a lock: exactly when
    calls in progress can leave a name in the registry twice. */
module RegistryRace {
  import opened Wrappers

  datatype Point = AtLookUp | AtAppend | Returned

  /** A call of register_plugin. It is at AtAppend if it has not found the name. */
  datatype Call = Call(name: string, point: Point)

  datatype State = State(names: seq<string>, calls: seq<Call>)

  datatype Action = Begin(name: string) | Go(c: nat) | Remove(name: string)

  function RemoveFirst(names: seq<string>, name: string): seq<string> {
    if names == [] then [] else if names[0] == name then names[1..] else [names[0]] + RemoveFirst(names[1..], name)
  }

  function Apply(s: State, a: Action): Option<State> {
    match a
    case Begin(name) => Some(s.(calls := s.calls + [Call(name, AtLookUp)]))
    case Remove(name) => Some(s.(names := RemoveFirst(s.names, name)))
    case Go(c) =>
      if c >= |s.calls| then None else
        var call := s.calls[c];
        match call.point
        case AtLookUp =>
          var found := if call.name in s.names then Returned else AtAppend;
          Some(s.(calls := s.calls[c := call.(point := found)]))
        case AtAppend => Some(State(s.names + [call.name], s.calls[c := call.(point := Returned)]))
        case Returned => None
  }

  function Exec(s: State, actions: seq<Action>): Option<State>
    decreases |actions|
  {
    if actions == [] then Some(s) else
      match Apply(s, actions[0])
      case None => None
      case Some(t) => Exec(t, actions[1..])
  }

  predicate Distinct(names: seq<string>) {
    forall i, j | 0 <= i < j < |names| :: names[i] != names[j]
  }

  // ----- what can go wrong -----

  /** The call may still append. */
  predicate Unfinished(s: State, c: nat)
    requires c < |s.calls|
  {
    s.calls[c].point != Returned
  }

  /** A call is about to append a name that is listed by now. */
  predicate LateAppend(s: State, c: nat) {
    c < |s.calls| && s.calls[c].point == AtAppend && s.calls[c].name in s.names
  }

  /** Two calls for the same name overlap, and the name is not listed yet. */
  predicate Overlap(s: State, c: nat, d: nat) {
    && c < d < |s.calls| && s.calls[c].name == s.calls[d].name && s.calls[c].name !in s.names
    && Unfinished(s, c) && Unfinished(s, d)
  }

  ghost predicate Conflict(s: State) {
    (exists c: nat :: LateAppend(s, c)) || (exists c: nat, d: nat :: Overlap(s, c, d))
  }

  // ----- without a conflict no name is doubled -----

  lemma GoKeepsApart(s: State, c: nat)
    requires Distinct(s.names) && !Conflict(s) && Apply(s, Go(c)).Some?
    ensures var t := Apply(s, Go(c)).value; Distinct(t.names) && !Conflict(t)
  {
    var t := Apply(s, Go(c)).value;
    assert !LateAppend(s, c);
    forall d: nat ensures !LateAppend(t, d) {
      assert !LateAppend(s, d);
      if d < |s.calls| && d != c {
        assert !Overlap(s, c, d) && !Overlap(s, d, c);
      }
    }
    forall d: nat, e: nat ensures !Overlap(t, d, e) {
      assert !Overlap(s, d, e);
    }
  }

  lemma {:induction false} RemoveFirstIsPart(names: seq<string>, name: string)
    ensures forall n | n in RemoveFirst(names, name) :: n in names
    ensures forall n | n in names && n != name :: n in RemoveFirst(names, name)
    ensures Distinct(names) ==> Distinct(RemoveFirst(names, name)) && name !in RemoveFirst(names, name)
  {
    if names != [] {
      var rest := RemoveFirst(names[1..], name);
      RemoveFirstIsPart(names[1..], name);
      assert names == [names[0]] + names[1..];
      if Distinct(names) {
        assert forall i | 0 <= i < |names[1..]| :: names[1..][i] == names[i + 1];
        assert names[0] !in names[1..];
      }
    }
  }

  /** The steps of the calls in progress, without new calls or removals. */
  predicate InProgress(actions: seq<Action>) {
    forall i | 0 <= i < |actions| :: actions[i].Go?
  }

  predicate Doubles(s: State, actions: seq<Action>) {
    Exec(s, actions).Some? && !Distinct(Exec(s, actions).value.names)
  }

  lemma {:induction false} ProgressKeepsApart(s: State, actions: seq<Action>)
    requires Distinct(s.names) && !Conflict(s) && InProgress(actions)
    ensures !Doubles(s, actions)
    decreases |actions|
  {
    if actions != [] && Apply(s, actions[0]).Some? {
      assert actions[0] == Go(actions[0].c);
      GoKeepsApart(s, actions[0].c);
      ProgressKeepsApart(Apply(s, actions[0]).value, actions[1..]);
    }
  }

  // ----- with a conflict one can be -----

  lemma LateAppendDoubles(s: State, c: nat)
    requires LateAppend(s, c)
    ensures Doubles(s, [Go(c)])
  {
    var t := Apply(s, Go(c)).value;
    assert [Go(c)][1..] == [];
    var i :| 0 <= i < |s.names| && s.names[i] == s.calls[c].name;
    assert t.names[i] == t.names[|s.names|];
  }

  lemma Prepend(s: State, a: Action, actions: seq<Action>)
    requires Apply(s, a).Some? && Doubles(Apply(s, a).value, actions)
    ensures Doubles(s, [a] + actions)
  {
    assert ([a] + actions)[0] == a && ([a] + actions)[1..] == actions;
  }

  /** Both calls look the name up before either appends it. */
  lemma OverlapDoubles(s: State, c: nat, d: nat) returns (actions: seq<Action>)
    requires c < |s.calls| && d < |s.calls| && c != d && s.calls[c].name == s.calls[d].name
        && s.calls[c].name !in s.names
    requires Unfinished(s, c) && Unfinished(s, d)
    ensures InProgress(actions) && Doubles(s, actions)
    decreases (if s.calls[c].point == AtLookUp then 1 else 0) + (if s.calls[d].point == AtLookUp then 1 else 0)
  {
    if s.calls[c].point == AtLookUp {
      var rest := OverlapDoubles(Apply(s, Go(c)).value, c, d);
      Prepend(s, Go(c), rest);
      actions := [Go(c)] + rest;
    } else if s.calls[d].point == AtLookUp {
      var rest := OverlapDoubles(Apply(s, Go(d)).value, c, d);
      Prepend(s, Go(d), rest);
      actions := [Go(d)] + rest;
    } else {
      var t := Apply(s, Go(c)).value;
      assert t.names[|s.names|] == s.calls[c].name;
      LateAppendDoubles(t, d);
      Prepend(s, Go(c), [Go(d)]);
      actions := [Go(c)] + [Go(d)];
    }
  }

  /** The calls in progress can leave a name twice if and only if one of them is about to append a name
      that is listed by now, or two of them are for the same name, which is not listed. */
  lemma DoubledExactly(s: State)
    requires Distinct(s.names)
    ensures (exists actions :: InProgress(actions) && Doubles(s, actions)) <==> Conflict(s)
  {
    if c: nat :| LateAppend(s, c) {
      LateAppendDoubles(s, c);
      assert InProgress([Go(c)]);
    } else if c: nat, d: nat :| Overlap(s, c, d) {
      var actions := OverlapDoubles(s, c, d);
    } else {
      forall actions | InProgress(actions) ensures !Doubles(s, actions) {
        ProgressKeepsApart(s, actions);
      }
    }
  }

  // ----- registering one name at a time -----

  /** A call begins only when no other call for the name is in progress. */
  predicate OneAtATime(s: State, actions: seq<Action>)
    decreases |actions|
  {
    actions == [] ||
    (&& (actions[0].Begin? ==>
           forall c | 0 <= c < |s.calls| && s.calls[c].name == actions[0].name :: !Unfinished(s, c))
     && (Apply(s, actions[0]).Some? ==> OneAtATime(Apply(s, actions[0]).value, actions[1..])))
  }

  /** At most one call for each name is in progress, and it has not overlooked anything. */
  ghost predicate Apart(s: State) {
    && Distinct(s.names)
    && (forall c, d | 0 <= c < d < |s.calls| && Unfinished(s, c) && Unfinished(s, d) ::
        s.calls[c].name != s.calls[d].name)
    && (forall c | 0 <= c < |s.calls| && s.calls[c].point == AtAppend :: s.calls[c].name !in s.names)
  }

  lemma ApplyKeepsApart(s: State, a: Action)
    requires Apart(s) && Apply(s, a).Some?
    requires a.Begin? ==> forall c | 0 <= c < |s.calls| && s.calls[c].name == a.name :: !Unfinished(s, c)
    ensures Apart(Apply(s, a).value)
  {
    if a.Remove? {
      RemoveFirstIsPart(s.names, a.name);
    }
  }

  /** So the names stay distinct in every run, with any removals, in which a name is registered by one
      call at a time. */
  lemma {:induction false} OneAtATimeStaysDistinct(s: State, actions: seq<Action>)
    requires Apart(s) && OneAtATime(s, actions)
    ensures !Doubles(s, actions)
    decreases |actions|
  {
    if actions != [] && Apply(s, actions[0]).Some? {
      ApplyKeepsApart(s, actions[0]);
      OneAtATimeStaysDistinct(Apply(s, actions[0]).value, actions[1..]);
    }
  }
}

/** Which errors of a rejected request are not the validator's own: exactly when a bare TypeError or a
    bare KeyError gets out. */
module RequestErrors {
  import opened Wrappers
  import opened RequestModel
  import opened RequestValidator
  import opened RequestConformance

  predicate Included(p: Parameter, params: Entries) {
    StrKey(p.key) in params || p.default != Null || p.optional
  }

  predicate StrictChoices(p: Parameter) {
    p.choices.Some? && p.choices.value.strict
  }

  ghost predicate Acceptable(ctx: Context, p: Parameter, params: Entries) {
    exists w :: Admits(ctx, p, params, w)
  }

  ghost predicate Coercible(ctx: Context, p: Parameter, v: Value) {
    exists w :: Coerces(ctx, p, v, w)
  }

  /** Parameter i is reached: no undeclared key was sent and all parameters before it are accepted. */
  ghost predicate Reached(ctx: Context, schema: seq<Parameter>, params: Entries, i: nat)
    requires i < |schema|
  {
    params.Keys <= KeysOf(schema) && forall j | 0 <= j < i :: Acceptable(ctx, schema[j], params)
  }

  // ----- the first failure decides -----

  predicate ItemFailsAt(ctx: Context, p: Parameter, items: seq<Value>, e: Error, j: nat)
    requires j < |items|
  {
    AllByType(ctx, p, items[..j]).Ok? && ByType(ctx, p, items[j]) == Err(e)
  }

  lemma {:induction false} FirstItemFails(ctx: Context, p: Parameter, items: seq<Value>, e: Error)
    ensures AllByType(ctx, p, items) == Err(e) <==> exists j :: 0 <= j < |items| && ItemFailsAt(ctx, p, items, e, j)
    decreases |items|
  {
    if items != [] {
      var last := |items| - 1;
      var init := items[..last];
      FirstItemFails(ctx, p, init, e);
      forall j | 0 <= j < last ensures ItemFailsAt(ctx, p, init, e, j) <==> ItemFailsAt(ctx, p, items, e, j) {
        assert init[..j] == items[..j];
      }
      if j :| 0 <= j < last && ItemFailsAt(ctx, p, items, e, j) {
        assert ItemFailsAt(ctx, p, init, e, j);
      }
      if ItemFailsAt(ctx, p, items, e, last) {
        assert AllByType(ctx, p, items) == Err(e);
      }
    }
  }

  predicate FieldFailsAt(ctx: Context, schema: seq<Parameter>, params: Entries, e: Error, i: nat)
    requires i < |schema|
  {
    Fields(ctx, schema[..i], params).Ok? && Field(ctx, schema[i], params) == Err(e)
  }

  lemma {:induction false} FirstFieldFails(ctx: Context, schema: seq<Parameter>, params: Entries, e: Error)
    ensures Fields(ctx, schema, params) == Err(e)
        <==> exists i :: 0 <= i < |schema| && FieldFailsAt(ctx, schema, params, e, i)
    decreases |schema|
  {
    if schema != [] {
      var last := |schema| - 1;
      var init := schema[..last];
      FirstFieldFails(ctx, init, params, e);
      forall i | 0 <= i < last ensures FieldFailsAt(ctx, init, params, e, i)
          <==> FieldFailsAt(ctx, schema, params, e, i)
      {
        assert init[..i] == schema[..i];
      }
      if i :| 0 <= i < last && FieldFailsAt(ctx, schema, params, e, i) {
        assert FieldFailsAt(ctx, init, params, e, i);
      }
      if FieldFailsAt(ctx, schema, params, e, last) {
        assert Fields(ctx, schema, params) == Err(e);
      }
    }
  }

  lemma AcceptedIsAcceptable(ctx: Context, p: Parameter, params: Entries)
    ensures Field(ctx, p, params).Ok? <==> Acceptable(ctx, p, params)
  {
    if Field(ctx, p, params).Ok? {
      FieldIsExact(ctx, p, params, Field(ctx, p, params).value);
    }
    if w :| Admits(ctx, p, params, w) {
      FieldIsExact(ctx, p, params, w);
    }
  }

  lemma PrefixAccepted(ctx: Context, schema: seq<Parameter>, params: Entries, i: nat)
    requires i <= |schema|
    ensures Fields(ctx, schema[..i], params).Ok? <==> forall j | 0 <= j < i :: Acceptable(ctx, schema[j], params)
  {
    var prefix := schema[..i];
    FieldsSucceed(ctx, prefix, params);
    forall j | 0 <= j < i
        ensures prefix[j] == schema[j] && (Field(ctx, prefix[j], params).Ok? <==> Acceptable(ctx, schema[j], params))
    {
      AcceptedIsAcceptable(ctx, schema[j], params);
    }
  }

  /** A validation fails with error e, other than for an undeclared key, exactly when the first
      parameter that is not accepted fails with it. */
  lemma FailsAtReached(ctx: Context, schema: seq<Parameter>, params: Entries, e: Error)
    requires e != ModelValidation
    ensures Validate(ctx, schema, params) == Err(e) <==>
              exists i :: 0 <= i < |schema| && Reached(ctx, schema, params, i)
                  && Field(ctx, schema[i], params) == Err(e)
  {
    FirstFieldFails(ctx, schema, params, e);
    forall i | 0 <= i < |schema|
      ensures params.Keys <= KeysOf(schema) ==>
                (FieldFailsAt(ctx, schema, params, e, i) <==>
                   Reached(ctx, schema, params, i) && Field(ctx, schema[i], params) == Err(e))
    {
      PrefixAccepted(ctx, schema, params, i);
    }
    if params.Keys <= KeysOf(schema) {
      if i :| 0 <= i < |schema| && Reached(ctx, schema, params, i) && Field(ctx, schema[i], params) == Err(e) {
        assert FieldFailsAt(ctx, schema, params, e, i);
      }
    }
  }

  lemma ExtractedStandsFor(ctx: Context, p: Parameter, params: Entries)
    ensures Extract(ctx, p, params).Ok? ==> StandsFor(ctx, p, Supplied(p, params), Extract(ctx, p, params).value)
    ensures forall w | StandsFor(ctx, p, Supplied(p, params), w) :: Extract(ctx, p, params) == Ok(w)
  {
    forall w ensures Extract(ctx, p, params) == Ok(w) <==> StandsFor(ctx, p, Supplied(p, params), w) {
      ExtractIsExact(ctx, p, params, w);
    }
    if Extract(ctx, p, params).Ok? {
      ExtractIsExact(ctx, p, params, Extract(ctx, p, params).value);
    }
  }

  // ----- TypeError -----

  /** The allowed values cannot be looked up: the reference is to a list or a dictionary, which cannot
      be a key, or the query raised. */
  ghost predicate LookupRaises(ctx: Context, p: Parameter) {
    StrictChoices(p) &&
    match p.choices.value.source
    case StaticTable(Some(reference), _) =>
      && reference != "instance_name"
      && StrKey(reference) in ctx.parameters
      && (var v := ctx.parameters[StrKey(reference)]; !Falsy(v) && (v.List? || v.Dict?))
    case Queried(answer) => answer == Err(TypeOrValue)
    case _ => false
  }

  predicate Unmeasurable(p: Parameter, w: Value) {
    w.Dict? && ((p.maximum.Some? && p.maximum.value != 0) || (p.minimum.Some? && p.minimum.value != 0))
  }

  predicate Unmatchable(p: Parameter, w: Value) {
    !w.Str? && p.regex.Some? && p.regex.value != ""
  }

  /** Some check of p cannot handle w, and w passes the checks before it. */
  ghost predicate Unchecked(ctx: Context, p: Parameter, w: Value) {
    && Constrained(p, w)
    && (|| LookupRaises(ctx, p)
        || (WithinChoices(ctx, p, w) && (Unmeasurable(p, w) || (WithinBounds(p, w) && Unmatchable(p, w)))))
  }

  /** The value v of p stands for a value that the checks cannot handle. */
  ghost predicate StandsForUnchecked(ctx: Context, p: Parameter, v: Value) {
    exists w :: StandsFor(ctx, p, v, w) && Unchecked(ctx, p, w)
  }

  lemma ByTypeNeverEscapes(ctx: Context, p: Parameter, v: Value)
    ensures ByType(ctx, p, v) != Err(TypeOrValue)
  {
  }

  lemma ExtractNeverEscapes(ctx: Context, p: Parameter, params: Entries)
    ensures Extract(ctx, p, params) != Err(TypeOrValue)
  {
    var v := Supplied(p, params);
    ByTypeNeverEscapes(ctx, p, v);
    if v.List? {
      FirstItemFails(ctx, p, v.items, TypeOrValue);
      forall j | 0 <= j < |v.items| ensures ByType(ctx, p, v.items[j]) != Err(TypeOrValue) {
        ByTypeNeverEscapes(ctx, p, v.items[j]);
      }
    }
  }

  lemma {:induction false} CollapseError(raw: seq<Value>)
    ensures Collapse(raw).Err? ==> Collapse(raw) == Err(KeyMissing)
  {
    if raw != [] {
      CollapseError(raw[..|raw| - 1]);
    }
  }

  /** Elements of a list parameter can always be gone through, so only the look-up raises. */
  lemma ChoicesRaise(ctx: Context, p: Parameter, w: Value)
    requires Constrained(p, w) && (p.multi ==> w.List?)
    ensures CheckChoices(ctx, p, w) == Err(TypeOrValue) <==> LookupRaises(ctx, p)
  {
    if StrictChoices(p) {
      var source := p.choices.value.source;
      if source.StaticTable? && source.keyReference.Some? && StrKey(source.keyReference.value) in ctx.parameters {
        FalsyIsExact(ctx.parameters[StrKey(source.keyReference.value)]);
      }
      var raw := RawAllowed(ctx, source);
      if raw.Ok? {
        CollapseError(raw.value);
      }
    }
  }

  lemma FieldEscapesExactly(ctx: Context, p: Parameter, params: Entries)
    ensures Field(ctx, p, params) == Err(TypeOrValue) <==>
              Included(p, params) && StandsForUnchecked(ctx, p, Supplied(p, params))
  {
    ExtractNeverEscapes(ctx, p, params);
    ExtractedStandsFor(ctx, p, params);
    var e := Extract(ctx, p, params);
    if e.Ok? {
      ChecksEscapeExactly(ctx, p, e.value);
      if Unchecked(ctx, p, e.value) {
        assert StandsForUnchecked(ctx, p, Supplied(p, params));
      }
    }
  }

  /** The checks in their order. */
  lemma ChecksEscapeExactly(ctx: Context, p: Parameter, w: Value)
    requires p.multi && w != Null ==> w.List?
    ensures Unchecked(ctx, p, w) <==>
              || CheckChoices(ctx, p, w) == Err(TypeOrValue)
              || (CheckChoices(ctx, p, w).Ok? && CheckMaximum(p, w) == Err(TypeOrValue))
              || (CheckChoices(ctx, p, w).Ok? && CheckMaximum(p, w).Ok? && CheckMinimum(p, w) == Err(TypeOrValue))
              || (CheckChoices(ctx, p, w).Ok? && CheckMaximum(p, w).Ok? && CheckMinimum(p, w).Ok?
                  && CheckRegex(ctx.lib, p, w) == Err(TypeOrValue))
  {
    if Constrained(p, w) {
      ChoicesRaise(ctx, p, w);
      ChoicesAreExact(ctx, p, w);
      BoundsAreExact(p, w);
    }
  }

  /** TypeError: a validation ends in a bare TypeError exactly when, with no undeclared key and all
      parameters before it accepted, some parameter at the top level stands for a value that its checks
      cannot handle. Below the top level the type check turns such errors into validation errors. */
  lemma TypeErrorEscapesExactly(ctx: Context, schema: seq<Parameter>, params: Entries)
    ensures Validate(ctx, schema, params) == Err(TypeOrValue) <==>
              exists i :: 0 <= i < |schema| && Reached(ctx, schema, params, i) && Included(schema[i], params)
                          && StandsForUnchecked(ctx, schema[i], Supplied(schema[i], params))
  {
    FailsAtReached(ctx, schema, params, TypeOrValue);
    forall i | 0 <= i < |schema|
      ensures Field(ctx, schema[i], params) == Err(TypeOrValue) <==>
                Included(schema[i], params) && StandsForUnchecked(ctx, schema[i], Supplied(schema[i], params))
    {
      FieldEscapesExactly(ctx, schema[i], params);
    }
  }

  // ----- KeyError -----

  /** Some allowed value is a dictionary without "value", or the query raised a KeyError. */
  ghost predicate ChoicesLackValue(ctx: Context, p: Parameter) {
    StrictChoices(p) &&
    (|| p.choices.value.source == Queried(Err(KeyMissing))
     || exists raw: seq<Value> :: IsRawList(ctx, p.choices.value.source, raw)
          && exists i :: 0 <= i < |raw| && raw[i].Dict? && StrKey("value") !in raw[i].entries)
  }

  /** The first parameter that is not accepted meets such choices, itself or inside its value. */
  ghost predicate MeetsKeyError(ctx: Context, schema: seq<Parameter>, params: Entries)
    decreases schema, 1
  {
    exists i :: 0 <= i < |schema| && Reached(ctx, schema, params, i) && KeyErrorAt(ctx, schema, i, params)
  }

  ghost predicate KeyErrorAt(ctx: Context, schema: seq<Parameter>, i: nat, params: Entries)
    requires i < |schema|
    decreases schema, 0
  {
    && Included(schema[i], params)
    && (|| KeyErrorIn(ctx, schema[i], Supplied(schema[i], params))
        || StandsForChosen(ctx, schema[i], Supplied(schema[i], params)))
  }

  /** The value v of p stands for one that is checked against choices that lack a "value". */
  ghost predicate StandsForChosen(ctx: Context, p: Parameter, v: Value) {
    ChoicesLackValue(ctx, p) && exists w :: StandsFor(ctx, p, v, w) && Constrained(p, w)
  }

  /** The value v of p contains a dictionary that meets a KeyError, in the first element that cannot be
      coerced if p is a list. */
  ghost predicate KeyErrorIn(ctx: Context, p: Parameter, v: Value)
    decreases p, 2
  {
    if v == Null && p.nullable then false
    else if p.multi then
      && v.List?
      && exists j :: 0 <= j < |v.items| && CoercedBefore(ctx, p, v.items, j) && KeyErrorBelow(ctx, p, v.items[j])
    else KeyErrorBelow(ctx, p, v)
  }

  ghost predicate CoercedBefore(ctx: Context, p: Parameter, items: seq<Value>, j: nat)
    requires j <= |items|
  {
    forall k | 0 <= k < j :: Coercible(ctx, p, items[k])
  }

  ghost predicate KeyErrorBelow(ctx: Context, p: Parameter, v: Value)
    decreases p, 1
  {
    && (v == Null ==> p.nullable)
    && p.kind.DictionaryKind? && p.parameters != []
    && exists d: Entries :: IsDictOf(ctx.lib, v, d) && MeetsKeyError(ctx, p.parameters, d)
  }

  lemma {:induction false} PairsRaiseNoKeyError(lib: Library, items: seq<Value>)
    ensures PairsToDict(lib, items) != Err(KeyMissing)
  {
    if items != [] {
      PairsRaiseNoKeyError(lib, items[..|items| - 1]);
    }
  }

  lemma ToDictRaisesNoKeyError(lib: Library, v: Value)
    ensures ToDict(lib, v) != Err(KeyMissing)
  {
    if v.List? {
      PairsRaiseNoKeyError(lib, v.items);
    }
  }

  lemma DictOf(lib: Library, v: Value)
    ensures ToDict(lib, v).Ok? ==> IsDictOf(lib, v, ToDict(lib, v).value)
    ensures forall d | IsDictOf(lib, v, d) :: ToDict(lib, v) == Ok(d)
  {
    forall d: Entries ensures ToDict(lib, v) == Ok(d) <==> IsDictOf(lib, v, d) {
      ToDictIsExact(lib, v, d);
    }
    if ToDict(lib, v).Ok? {
      ToDictIsExact(lib, v, ToDict(lib, v).value);
    }
  }

  lemma {:induction false} KeyErrorBelowIsExact(ctx: Context, p: Parameter, v: Value)
    ensures ByType(ctx, p, v) == Err(KeyMissing) <==> KeyErrorBelow(ctx, p, v)
    decreases p, 1
  {
    ToDictRaisesNoKeyError(ctx.lib, v);
    DictOf(ctx.lib, v);
    if p.kind.DictionaryKind? && p.parameters != [] && ToDict(ctx.lib, v).Ok? {
      KeyErrorEscapesExactly(ctx, p.parameters, ToDict(ctx.lib, v).value);
    }
  }

  lemma {:induction false} CoercedBeforeIsExact(ctx: Context, p: Parameter, items: seq<Value>, j: nat)
    requires j <= |items|
    ensures AllByType(ctx, p, items[..j]).Ok? <==> CoercedBefore(ctx, p, items, j)
    decreases j
  {
    if j > 0 {
      CoercedBeforeIsExact(ctx, p, items, j - 1);
      assert items[..j][..j - 1] == items[..j - 1];
      CoercedIsCoercible(ctx, p, items[j - 1]);
    }
  }

  lemma CoercedIsCoercible(ctx: Context, p: Parameter, v: Value)
    ensures ByType(ctx, p, v).Ok? <==> Coercible(ctx, p, v)
  {
    if ByType(ctx, p, v).Ok? {
      ByTypeIsExact(ctx, p, v, ByType(ctx, p, v).value);
    }
    if w :| Coerces(ctx, p, v, w) {
      ByTypeIsExact(ctx, p, v, w);
    }
  }

  lemma {:induction false} KeyErrorInIsExact(ctx: Context, p: Parameter, params: Entries)
    ensures Extract(ctx, p, params) == Err(KeyMissing) <==> KeyErrorIn(ctx, p, Supplied(p, params))
    decreases p, 2
  {
    var v := Supplied(p, params);
    KeyErrorBelowIsExact(ctx, p, v);
    if p.multi && v.List? {
      FirstItemFails(ctx, p, v.items, KeyMissing);
      forall j | 0 <= j < |v.items|
        ensures ItemFailsAt(ctx, p, v.items, KeyMissing, j)
            <==> CoercedBefore(ctx, p, v.items, j) && KeyErrorBelow(ctx, p, v.items[j])
      {
        CoercedBeforeIsExact(ctx, p, v.items, j);
        KeyErrorBelowIsExact(ctx, p, v.items[j]);
      }
    }
  }

  lemma ChoicesMissKey(ctx: Context, p: Parameter, w: Value)
    requires Constrained(p, w)
    ensures CheckChoices(ctx, p, w) == Err(KeyMissing) <==> ChoicesLackValue(ctx, p)
  {
    if StrictChoices(p) {
      var source := p.choices.value.source;
      forall raw ensures RawAllowed(ctx, source) == Ok(raw) <==> IsRawList(ctx, source, raw) {
        RawListIsExact(ctx, source, raw);
      }
      var raw := RawAllowed(ctx, source);
      if raw.Ok? {
        CollapseError(raw.value);
        CollapseIsExact(raw.value);
      }
    }
  }

  lemma ChosenMissKey(ctx: Context, p: Parameter, params: Entries)
    requires Extract(ctx, p, params).Ok?
    ensures CheckChoices(ctx, p, Extract(ctx, p, params).value) == Err(KeyMissing) <==>
              StandsForChosen(ctx, p, Supplied(p, params))
  {
    ExtractedStandsFor(ctx, p, params);
    var w := Extract(ctx, p, params).value;
    if Constrained(p, w) {
      ChoicesMissKey(ctx, p, w);
    }
  }

  lemma {:induction false} KeyErrorAtIsExact(ctx: Context, schema: seq<Parameter>, i: nat, params: Entries)
    requires i < |schema|
    ensures Field(ctx, schema[i], params) == Err(KeyMissing) <==> KeyErrorAt(ctx, schema, i, params)
    decreases schema, 0
  {
    var p := schema[i];
    KeyErrorInIsExact(ctx, p, params);
    if Extract(ctx, p, params).Ok? {
      ChosenMissKey(ctx, p, params);
    } else {
      NothingStandsFor(ctx, p, params);
    }
  }

  lemma NothingStandsFor(ctx: Context, p: Parameter, params: Entries)
    requires Extract(ctx, p, params).Err?
    ensures !StandsForChosen(ctx, p, Supplied(p, params))
  {
    ExtractedStandsFor(ctx, p, params);
  }

  /** KeyError: a validation ends in a bare KeyError exactly when the first parameter that is not
      accepted has choices with a dictionary without "value", or contains, at any depth, a dictionary
      whose validation ends like that. */
  lemma {:induction false} KeyErrorEscapesExactly(ctx: Context, schema: seq<Parameter>, params: Entries)
    ensures Validate(ctx, schema, params) == Err(KeyMissing) <==> MeetsKeyError(ctx, schema, params)
    decreases schema, 1
  {
    FailsAtReached(ctx, schema, params, KeyMissing);
    forall i | 0 <= i < |schema|
      ensures Field(ctx, schema[i], params) == Err(KeyMissing) <==> KeyErrorAt(ctx, schema, i, params)
    {
      KeyErrorAtIsExact(ctx, schema, i, params);
    }
  }
}

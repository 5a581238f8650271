/** Laws of the request validator that relate several validations. */
module RequestLaws {
  import opened Wrappers
  import opened RequestModel
  import opened RequestValidator
  import opened RequestConformance

  ghost predicate DistinctKeys(schema: seq<Parameter>) {
    forall i, j | 0 <= i < j < |schema| :: schema[i].key != schema[j].key
  }

  /** Choices that depend on what else was sent with the request. */
  predicate ReadsRequest(p: Parameter) {
    p.choices.Some? && p.choices.value.source.StaticTable?
    && p.choices.value.source.keyReference.Some? && p.choices.value.source.keyReference.value != "instance_name"
  }

  /** At every level, references select the same table entries in both requests. */
  ghost predicate SameEntries(schema: seq<Parameter>, before: Entries, after: Entries) {
    forall i | 0 <= i < |schema| :: SameEntry(schema[i], before, after)
  }

  ghost predicate SameEntry(p: Parameter, before: Entries, after: Entries) {
    && (ReadsRequest(p) ==>
          var k := p.choices.value.source.keyReference.value; Selected(before, k) == Selected(after, k))
    && forall i | 0 <= i < |p.parameters| :: SameEntry(p.parameters[i], before, after)
  }

  /** Keys are distinct at every level. */
  ghost predicate DistinctEverywhere(schema: seq<Parameter>) {
    DistinctKeys(schema) && forall i | 0 <= i < |schema| :: DistinctBelow(schema[i])
  }

  ghost predicate DistinctBelow(p: Parameter) {
    DistinctKeys(p.parameters) && forall i | 0 <= i < |p.parameters| :: DistinctBelow(p.parameters[i])
  }

  // ----- of the rest of the request only the selected entries matter -----

  lemma {:induction false} ByTypeIgnoresRequest(ctx: Context, other: Entries, p: Parameter, v: Value)
    requires SameEntry(p, ctx.parameters, other)
    ensures ByType(ctx.(parameters := other), p, v) == ByType(ctx, p, v)
    decreases p, 0
  {
    if p.kind.DictionaryKind? && p.parameters != [] && ToDict(ctx.lib, v).Ok? {
      ValidateIgnoresRequest(ctx, other, p.parameters, ToDict(ctx.lib, v).value);
    }
  }

  lemma {:induction false} AllByTypeIgnoresRequest(ctx: Context, other: Entries, p: Parameter, items: seq<Value>)
    requires SameEntry(p, ctx.parameters, other)
    ensures AllByType(ctx.(parameters := other), p, items) == AllByType(ctx, p, items)
    decreases p, 1, |items|
  {
    if items != [] {
      AllByTypeIgnoresRequest(ctx, other, p, items[..|items| - 1]);
      ByTypeIgnoresRequest(ctx, other, p, items[|items| - 1]);
    }
  }

  lemma {:induction false} FieldIgnoresRequest(ctx: Context, other: Entries, p: Parameter, params: Entries)
    requires SameEntry(p, ctx.parameters, other)
    ensures Field(ctx.(parameters := other), p, params) == Field(ctx, p, params)
    decreases p, 3
  {
    var v := Supplied(p, params);
    if p.multi && v.List? {
      AllByTypeIgnoresRequest(ctx, other, p, v.items);
    }
    ByTypeIgnoresRequest(ctx, other, p, v);
    assert Extract(ctx.(parameters := other), p, params) == Extract(ctx, p, params);
    forall w ensures CheckChoices(ctx.(parameters := other), p, w) == CheckChoices(ctx, p, w) {
    }
  }

  lemma {:induction false} FieldsIgnoreRequest(ctx: Context, other: Entries, schema: seq<Parameter>, params: Entries)
    requires SameEntries(schema, ctx.parameters, other)
    ensures Fields(ctx.(parameters := other), schema, params) == Fields(ctx, schema, params)
    decreases schema, 0
  {
    if schema != [] {
      var init := schema[..|schema| - 1];
      assert forall i | 0 <= i < |init| :: init[i] == schema[i];
      FieldsIgnoreRequest(ctx, other, init, params);
      FieldIgnoresRequest(ctx, other, schema[|schema| - 1], params);
    }
  }

  lemma {:induction false} ValidateIgnoresRequest(ctx: Context, other: Entries, schema: seq<Parameter>, params: Entries)
    requires SameEntries(schema, ctx.parameters, other)
    ensures Validate(ctx.(parameters := other), schema, params) == Validate(ctx, schema, params)
    decreases schema, 1
  {
    FieldsIgnoreRequest(ctx, other, schema, params);
  }

  // ----- idempotence -----

  lemma {:induction false} ByTypeIdempotent(ctx: Context, p: Parameter, v: Value)
    requires DistinctBelow(p) && ByType(ctx, p, v).Ok?
    ensures ByType(ctx, p, ByType(ctx, p, v).value) == ByType(ctx, p, v)
    decreases p, 0
  {
    if p.kind.DictionaryKind? && p.parameters != [] {
      ValidateIdempotent(ctx, p.parameters, ToDict(ctx.lib, v).value);
    }
  }

  lemma {:induction false} AllByTypeIdempotent(ctx: Context, p: Parameter, items: seq<Value>)
    requires DistinctBelow(p) && AllByType(ctx, p, items).Ok?
    ensures AllByType(ctx, p, AllByType(ctx, p, items).value) == AllByType(ctx, p, items)
    decreases p, 1, |items|
  {
    if items != [] {
      var init, last := items[..|items| - 1], items[|items| - 1];
      AllByTypeIdempotent(ctx, p, init);
      ByTypeIdempotent(ctx, p, last);
      var rest, w := AllByType(ctx, p, init).value, ByType(ctx, p, last).value;
      assert (rest + [w])[..|rest|] == rest;
    }
  }

  lemma {:induction false} ExtractIdempotent(ctx: Context, p: Parameter, params: Entries, again: Entries)
    requires DistinctBelow(p) && Extract(ctx, p, params).Ok?
    requires StrKey(p.key) in again && again[StrKey(p.key)] == Extract(ctx, p, params).value
    ensures Extract(ctx, p, again) == Extract(ctx, p, params)
    decreases p, 2
  {
    var v := Supplied(p, params);
    if v == Null && p.nullable {
    } else if p.multi {
      AllByTypeIdempotent(ctx, p, v.items);
    } else {
      ByTypeIdempotent(ctx, p, v);
    }
  }

  /** A parameter whose validated value is sent again contributes the same value again. */
  lemma {:induction false} FieldIdempotent(ctx: Context, p: Parameter, params: Entries, again: Entries)
    requires DistinctBelow(p) && Field(ctx, p, params).Ok?
    requires StrKey(p.key) in again && again[StrKey(p.key)] == Field(ctx, p, params).value
    ensures Field(ctx, p, again) == Field(ctx, p, params)
    decreases p, 3
  {
    ExtractIdempotent(ctx, p, params, again);
  }

  /** Idempotence: validating the returned parameters again returns them unchanged. */
  lemma {:induction false} ValidateIdempotent(ctx: Context, schema: seq<Parameter>, params: Entries)
    requires DistinctEverywhere(schema) && Validate(ctx, schema, params).Ok?
    ensures Validate(ctx, schema, Validate(ctx, schema, params).value) == Validate(ctx, schema, params)
    decreases schema, 1
  {
    var r := Validate(ctx, schema, params).value;
    FieldsAreExact(ctx, schema, params, r);
    FieldsAreExact(ctx, schema, r, r);
    forall i | 0 <= i < |schema| ensures Contributes(ctx, schema, i, r, r) {
      assert Contributes(ctx, schema, i, params, r);
      assert LastOfItsKey(schema, i);
      FieldIdempotent(ctx, schema[i], params, r);
    }
  }

  // ----- defaults and order -----

  lemma {:induction false} FieldsWithDefault(ctx: Context, schema: seq<Parameter>, params: Entries, key: string,
      default: Value)
    requires StrKey(key) !in params && default != Null
    requires forall i | 0 <= i < |schema| && schema[i].key == key :: schema[i].default == default
    ensures Fields(ctx, schema, params[StrKey(key) := default]) == Fields(ctx, schema, params)
    decreases |schema|
  {
    if schema != [] {
      var init, p := schema[..|schema| - 1], schema[|schema| - 1];
      assert forall i | 0 <= i < |init| :: init[i] == schema[i];
      FieldsWithDefault(ctx, init, params, key, default);
      assert Supplied(p, params[StrKey(key) := default]) == Supplied(p, params);
      assert Extract(ctx, p, params[StrKey(key) := default]) == Extract(ctx, p, params);
    }
  }

  /** Defaults: leaving out a parameter whose default is not None is the same as sending the default,
      for the result as well as for the error, if every reference selects the same entry either way. */
  lemma OmittingIsSendingTheDefault(ctx: Context, schema: seq<Parameter>, params: Entries, key: string, default: Value)
    requires SameEntries(schema, params, params[StrKey(key) := default])
    requires StrKey(key) in KeysOf(schema) && StrKey(key) !in params && default != Null
    requires forall i | 0 <= i < |schema| && schema[i].key == key :: schema[i].default == default
    ensures var sent := params[StrKey(key) := default];
            Validate(ctx.(parameters := sent), schema, sent) == Validate(ctx.(parameters := params), schema, params)
  {
    var sent := params[StrKey(key) := default];
    FieldsWithDefault(ctx, schema, params, key, default);
    FieldsWithDefault(ctx.(parameters := params), schema, params, key, default);
    ValidateIgnoresRequest(ctx.(parameters := params), sent, schema, sent);
    assert sent.Keys == params.Keys + {StrKey(key)};
  }

  lemma DistinctFieldsAreExact(ctx: Context, schema: seq<Parameter>, params: Entries, r: Entries)
    requires DistinctKeys(schema)
    ensures Fields(ctx, schema, params) == Ok(r) <==>
              r.Keys == KeysOf(schema) && forall p | p in schema :: Field(ctx, p, params) == Ok(r[StrKey(p.key)])
  {
    FieldsAreExact(ctx, schema, params, r);
    if r.Keys == KeysOf(schema) {
      forall i | 0 <= i < |schema|
        ensures Contributes(ctx, schema, i, params, r)
            <==> Field(ctx, schema[i], params) == Ok(r[StrKey(schema[i].key)])
      {
        assert LastOfItsKey(schema, i);
      }
    }
  }

  /** Order: rearranging the parameters of a schema changes neither which requests are accepted nor
      the resulting map. */
  lemma SchemaOrderIsIrrelevant(ctx: Context, schema: seq<Parameter>, schema': seq<Parameter>, params: Entries,
      r: Entries)
    requires DistinctKeys(schema) && DistinctKeys(schema')
    requires forall p :: p in schema <==> p in schema'
    ensures Validate(ctx, schema, params) == Ok(r) <==> Validate(ctx, schema', params) == Ok(r)
  {
    assert KeysOf(schema) == KeysOf(schema') by {
      KeysFromMembers(schema);
      KeysFromMembers(schema');
    }
    DistinctFieldsAreExact(ctx, schema, params, r);
    DistinctFieldsAreExact(ctx, schema', params, r);
  }

  lemma KeysFromMembers(schema: seq<Parameter>)
    ensures KeysOf(schema) == set p | p in schema :: StrKey(p.key)
  {
  }

  // ----- bounds -----

  ghost predicate AtMost(v: Value, bound: int) {
    exists size :: HasSize(v, size) && size <= bound as real
  }

  ghost predicate AtLeast(v: Value, bound: int) {
    exists size :: HasSize(v, size) && size >= bound as real
  }

  lemma SizeMeaning(v: Value, bound: int)
    ensures AtMost(v, bound) <==> Measure(v).Ok? && Measure(v).value <= bound as real
    ensures AtLeast(v, bound) <==> Measure(v).Ok? && Measure(v).value >= bound as real
  {
    forall size ensures Measure(v) == Ok(size) <==> HasSize(v, size) {
      MeasureIsExact(v, size);
    }
    if Measure(v).Ok? {
      assert HasSize(v, Measure(v).value);
    }
  }

  /** The maximum check is meant to keep values below the maximum. It does so exactly when the maximum
      is not zero, because a bound of zero is taken for a missing one, and the parameter is not
      optional, because checks are skipped for optional parameters. */
  lemma MaximumHoldsUnlessZero(p: Parameter)
    requires p.maximum.Some?
    ensures (forall v | v != Null && CheckMaximum(p, v).Ok? :: AtMost(v, p.maximum.value))
            <==> p.maximum.value != 0 && !p.optional
  {
    forall v ensures AtMost(v, p.maximum.value) <==> Measure(v).Ok? && Measure(v).value <= p.maximum.value as real {
      SizeMeaning(v, p.maximum.value);
    }
    if p.maximum.value == 0 || p.optional {
      var v := Int(p.maximum.value + 1);
      assert CheckMaximum(p, v).Ok? && !AtMost(v, p.maximum.value);
    }
  }

  lemma MinimumHoldsUnlessZero(p: Parameter)
    requires p.minimum.Some?
    ensures (forall v | v != Null && CheckMinimum(p, v).Ok? :: AtLeast(v, p.minimum.value))
            <==> p.minimum.value != 0 && !p.optional
  {
    forall v ensures AtLeast(v, p.minimum.value) <==> Measure(v).Ok? && Measure(v).value >= p.minimum.value as real {
      SizeMeaning(v, p.minimum.value);
    }
    if p.minimum.value == 0 || p.optional {
      var v := Int(p.minimum.value - 1);
      assert CheckMinimum(p, v).Ok? && !AtLeast(v, p.minimum.value);
    }
  }

  /** Every value of an accepted request is within the bounds that are checked. */
  lemma AcceptedAreBounded(ctx: Context, schema: seq<Parameter>, params: Entries, i: nat)
    requires Validate(ctx, schema, params).Ok? && i < |schema| && LastOfItsKey(schema, i) && !schema[i].optional
    ensures var r, p := Validate(ctx, schema, params).value, schema[i];
            && r.Keys == KeysOf(schema)
            && (r[StrKey(p.key)] != Null && p.maximum.Some? && p.maximum.value != 0 ==>
                  AtMost(r[StrKey(p.key)], p.maximum.value))
            && (r[StrKey(p.key)] != Null && p.minimum.Some? && p.minimum.value != 0 ==>
                  AtLeast(r[StrKey(p.key)], p.minimum.value))
  {
    FieldsCollect(ctx, schema, params, i);
    var p, v := schema[i], Validate(ctx, schema, params).value[StrKey(schema[i].key)];
    if HasBound(p.maximum) {
      SizeMeaning(v, p.maximum.value);
    }
    if HasBound(p.minimum) {
      SizeMeaning(v, p.minimum.value);
    }
  }

  /** An integer parameter with a maximum as its only constraint. */
  predicate OnlyMaximum(p: Parameter) {
    && p.kind.IntegerKind? && !p.multi && p.maximum.Some?
    && (p.choices.None? || !p.choices.value.strict) && (p.minimum.None? || p.minimum.value == 0) && p.regex.None?
  }

  lemma AcceptedInteger(ctx: Context, p: Parameter, n: int)
    requires OnlyMaximum(p) && (p.maximum.value == 0 || p.optional)
    ensures Validate(ctx, [p], map[StrKey(p.key) := Int(n)]) == Ok(map[StrKey(p.key) := Int(n)])
  {
    var params := map[StrKey(p.key) := Int(n)];
    assert KeysOf([p]) == {StrKey(p.key)} by {
      assert StrKey([p][0].key) == StrKey(p.key);
    }
    assert ByType(ctx, p, Int(n)) == Ok(Int(n)) by {
      assert Convert(ctx.lib, IntegerKind, Int(n)) == Ok(Int(n));
    }
    assert Extract(ctx, p, params) == Ok(Int(n));
    assert CheckChoices(ctx, p, Int(n)).Ok? && CheckMaximum(p, Int(n)).Ok? && CheckMinimum(p, Int(n)).Ok?;
    assert Field(ctx, p, params) == Ok(Int(n));
    assert [p][..0] == [];
    assert Fields(ctx, [], params) == Ok(map[]);
    assert Fields(ctx, [p], params) == Ok(map[][StrKey(p.key) := Int(n)]);
  }

  /** So whole requests: accepted integers keep to the maximum exactly under the same condition. */
  lemma AcceptedMaximumExactly(ctx: Context, p: Parameter)
    requires OnlyMaximum(p)
    ensures (forall params, r | Validate(ctx, [p], params) == Ok(r) && StrKey(p.key) in r ::
               r[StrKey(p.key)] == Null || AtMost(r[StrKey(p.key)], p.maximum.value))
            <==> p.maximum.value != 0 && !p.optional
  {
    var n := p.maximum.value + 1;
    if p.maximum.value == 0 || p.optional {
      AcceptedInteger(ctx, p, n);
      assert !AtMost(Int(n), p.maximum.value);
    } else {
      forall params, r | Validate(ctx, [p], params) == Ok(r) && StrKey(p.key) in r
        ensures r[StrKey(p.key)] == Null || AtMost(r[StrKey(p.key)], p.maximum.value)
      {
        AcceptedAreBounded(ctx, [p], params, 0);
      }
    }
  }
}

/** Validating a request again after its parameters have been replaced by what they were validated to:
    exactly when this returns them unchanged. */
module RequestRevalidation {
  import opened Wrappers
  import opened RequestModel
  import opened RequestValidator
  import opened RequestConformance
  import opened RequestLaws

  // ----- the condition -----

  /** The request selects an entry of p's choices that holds the value w, or all of its elements. */
  ghost predicate Listed(request: Entries, p: Parameter, w: Value)
    requires ReadsRequest(p)
  {
    var source := p.choices.value.source;
    exists entry: string :: Selected(request, source.keyReference.value) == Ok(entry)
      && entry in source.table
      && (forall i | 0 <= i < |source.table[entry]| && source.table[entry][i].Dict? ::
          StrKey("value") in source.table[entry][i].entries)
      && (if p.multi then w.List? && forall j | 0 <= j < |w.items| :: Allows(source.table[entry], w.items[j])
          else Allows(source.table[entry], w))
  }

  /** At every level, each constrained value whose choices refer to the request is in the entry that
      `request` selects. */
  ghost predicate StillListed(request: Entries, schema: seq<Parameter>, r: Entries)
    decreases schema, 0
  {
    forall i | 0 <= i < |schema| && StrKey(schema[i].key) in r ::
        ParameterListed(request, schema[i], r[StrKey(schema[i].key)])
  }

  ghost predicate ParameterListed(request: Entries, p: Parameter, w: Value)
    decreases p, 2
  {
    && (ReadsRequest(p) && p.choices.value.strict && Constrained(p, w) ==> Listed(request, p, w))
    && if p.multi && w.List? then forall i | 0 <= i < |w.items| :: NestedListed(request, p, w.items[i])
       else NestedListed(request, p, w)
  }

  ghost predicate NestedListed(request: Entries, p: Parameter, w: Value)
    decreases p, 1
  {
    p.kind.DictionaryKind? && p.parameters != [] && w.Dict? ==> StillListed(request, p.parameters, w.entries)
  }

  // ----- validating again, with another request around it -----

  /** A reference is within the choices of a request exactly when the value is listed. */
  lemma ListedIsWithin(ctx: Context, p: Parameter, w: Value)
    requires ReadsRequest(p) && p.choices.value.strict
    ensures Listed(ctx.parameters, p, w) <==> WithinChoices(ctx, p, w)
  {
    var source := p.choices.value.source;
    var entry := Selected(ctx.parameters, source.keyReference.value);
    forall raw
      ensures IsRawList(ctx, source, raw) <==>
                entry.Ok? && entry.value in source.table && raw == source.table[entry.value]
    {
      RawListIsExact(ctx, source, raw);
    }
    if entry.Ok? && entry.value in source.table {
      assert IsRawList(ctx, source, source.table[entry.value]);
    }
  }

  /** Choices that passed for one request pass for another one exactly when the value is listed. */
  lemma ChoicesAgain(ctx: Context, other: Entries, p: Parameter, w: Value)
    requires CheckChoices(ctx, p, w).Ok?
    ensures CheckChoices(ctx.(parameters := other), p, w).Ok? <==>
              (ReadsRequest(p) && p.choices.value.strict && Constrained(p, w) ==> Listed(other, p, w))
  {
    var again := ctx.(parameters := other);
    if ReadsRequest(p) && p.choices.value.strict && Constrained(p, w) {
      ChoicesAreExact(again, p, w);
      ListedIsWithin(again, p, w);
    } else {
      assert CheckChoices(again, p, w) == CheckChoices(ctx, p, w);
    }
  }

  ghost predicate AllNestedListed(request: Entries, p: Parameter, ws: seq<Value>) {
    forall i | 0 <= i < |ws| :: NestedListed(request, p, ws[i])
  }

  lemma AllNestedSnoc(request: Entries, p: Parameter, rest: seq<Value>, w: Value)
    ensures AllNestedListed(request, p, rest + [w]) <==>
              AllNestedListed(request, p, rest) && NestedListed(request, p, w)
  {
    var ws := rest + [w];
    assert ws[|rest|] == w && forall i | 0 <= i < |rest| :: ws[i] == rest[i];
  }

  lemma {:induction false} ByTypeAgain(ctx: Context, other: Entries, p: Parameter, v: Value)
    requires DistinctBelow(p) && ByType(ctx, p, v).Ok?
    ensures var w, again := ByType(ctx, p, v).value, ctx.(parameters := other);
            && (ByType(again, p, w).Ok? <==> NestedListed(other, p, w))
            && (ByType(again, p, w).Ok? ==> ByType(again, p, w) == Ok(w))
    decreases p, 0
  {
    if p.kind.DictionaryKind? && p.parameters != [] {
      ValidateAgain(ctx, other, p.parameters, ToDict(ctx.lib, v).value);
    }
  }

  lemma {:induction false} AllByTypeAgain(ctx: Context, other: Entries, p: Parameter, items: seq<Value>)
    requires DistinctBelow(p) && AllByType(ctx, p, items).Ok?
    ensures var ws, again := AllByType(ctx, p, items).value, ctx.(parameters := other);
            && |ws| == |items|
            && (AllByType(again, p, ws).Ok? <==> AllNestedListed(other, p, ws))
            && (AllByType(again, p, ws).Ok? ==> AllByType(again, p, ws) == Ok(ws))
    decreases p, 1, |items|
  {
    if items != [] {
      var init, last := items[..|items| - 1], items[|items| - 1];
      AllByTypeAgain(ctx, other, p, init);
      ByTypeAgain(ctx, other, p, last);
      var rest, w := AllByType(ctx, p, init).value, ByType(ctx, p, last).value;
      var ws := AllByType(ctx, p, items).value;
      assert ws == rest + [w] && ws[..|rest|] == rest && ws[|rest|] == w;
      AllNestedSnoc(other, p, rest, w);
    }
  }

  lemma {:induction false} ExtractAgain(ctx: Context, other: Entries, p: Parameter, params: Entries, request: Entries)
    requires DistinctBelow(p) && Extract(ctx, p, params).Ok?
    requires StrKey(p.key) in request && request[StrKey(p.key)] == Extract(ctx, p, params).value
    ensures var w, again := Extract(ctx, p, params).value, ctx.(parameters := other);
            && (Extract(again, p, request).Ok? <==>
                  if p.multi && w.List? then forall i | 0 <= i < |w.items| :: NestedListed(other, p, w.items[i])
                  else NestedListed(other, p, w))
            && (Extract(again, p, request).Ok? ==> Extract(again, p, request) == Ok(w))
    decreases p, 2
  {
    var v := Supplied(p, params);
    if v == Null && p.nullable {
    } else if p.multi {
      AllByTypeAgain(ctx, other, p, v.items);
    } else {
      ByTypeAgain(ctx, other, p, v);
    }
  }

  lemma {:induction false} FieldAgain(ctx: Context, other: Entries, p: Parameter, params: Entries, request: Entries)
    requires DistinctBelow(p) && Field(ctx, p, params).Ok?
    requires StrKey(p.key) in request && request[StrKey(p.key)] == Field(ctx, p, params).value
    ensures var w, again := Field(ctx, p, params).value, ctx.(parameters := other);
            && (Field(again, p, request).Ok? <==> ParameterListed(other, p, w))
            && (Field(again, p, request).Ok? ==> Field(again, p, request) == Ok(w))
    decreases p, 3
  {
    ExtractAgain(ctx, other, p, params, request);
    ChoicesAgain(ctx, other, p, Field(ctx, p, params).value);
  }

  lemma {:induction false} ValidateAgain(ctx: Context, other: Entries, schema: seq<Parameter>, params: Entries)
    requires DistinctEverywhere(schema) && Validate(ctx, schema, params).Ok?
    ensures var r, again := Validate(ctx, schema, params).value, ctx.(parameters := other);
            && r.Keys == KeysOf(schema)
            && (Validate(again, schema, r).Ok? <==> StillListed(other, schema, r))
            && (Validate(again, schema, r).Ok? ==> Validate(again, schema, r) == Ok(r))
    decreases schema, 1
  {
    var r, again := Validate(ctx, schema, params).value, ctx.(parameters := other);
    FieldsKeys(ctx, schema, params);
    FieldsSucceed(again, schema, r);
    forall i | 0 <= i < |schema|
      ensures Field(again, schema[i], r).Ok? <==> ParameterListed(other, schema[i], r[StrKey(schema[i].key)])
      ensures Field(again, schema[i], r).Ok? ==> Field(again, schema[i], r) == Ok(r[StrKey(schema[i].key)])
    {
      assert LastOfItsKey(schema, i);
      FieldsCollect(ctx, schema, params, i);
      FieldAgain(ctx, other, schema[i], params, r);
    }
    assert forall i | 0 <= i < |schema| :: StrKey(schema[i].key) in r;
    if Validate(again, schema, r).Ok? {
      DistinctFieldsAreExact(again, schema, r, r);
    }
  }

  // ----- a stored request -----

  /** Revalidation: once the returned parameters have replaced those that were sent, validating the
      request again either returns them unchanged or fails, and it returns them exactly when, at every
      level, each constrained value is still in the entry that the returned parameters select. */
  lemma RevalidatesExactly(ctx: Context, schema: seq<Parameter>, params: Entries)
    requires DistinctEverywhere(schema) && Validate(ctx, schema, params).Ok?
    ensures var r := Validate(ctx, schema, params).value;
            var second := Validate(ctx.(parameters := r), schema, r);
            && (second == Ok(r) <==> StillListed(r, schema, r))
            && (second == Ok(r) || second.Err?)
  {
    ValidateAgain(ctx, Validate(ctx, schema, params).value, schema, params);
  }

  /** In particular it returns them when every reference selects the same entry before and after. */
  lemma RevalidationIsIdentity(ctx: Context, schema: seq<Parameter>, params: Entries)
    requires DistinctEverywhere(schema) && Validate(ctx, schema, params).Ok?
    requires SameEntries(schema, ctx.parameters, Validate(ctx, schema, params).value)
    ensures var r := Validate(ctx, schema, params).value; Validate(ctx.(parameters := r), schema, r) == Ok(r)
  {
    var r := Validate(ctx, schema, params).value;
    ValidateIdempotent(ctx, schema, params);
    ValidateIgnoresRequest(ctx, r, schema, r);
  }

  // ----- conditions that can be read off the request -----

  /** The values of these types are stored as they were sent. */
  predicate KeptAsSent(p: Parameter) {
    !p.multi && (p.kind.StringKind? || p.kind.AnyKind? || p.kind.BooleanKind?)
  }

  /** The reference is to a key that is not declared, or to a parameter that is stored as it was sent
      and that was sent, or whose default counts as missing. */
  ghost predicate StableReference(schema: seq<Parameter>, params: Entries, key: string) {
    forall i | 0 <= i < |schema| && schema[i].key == key ::
      KeptAsSent(schema[i]) && (StrKey(key) in params || !Truthy(schema[i].default))
  }

  ghost predicate StableReferences(schema: seq<Parameter>, params: Entries, p: Parameter) {
    && (ReadsRequest(p) ==> StableReference(schema, params, p.choices.value.source.keyReference.value))
    && forall i | 0 <= i < |p.parameters| :: StableReferences(schema, params, p.parameters[i])
  }

  lemma KeptValue(ctx: Context, p: Parameter, params: Entries)
    requires KeptAsSent(p) && Field(ctx, p, params).Ok?
    ensures Field(ctx, p, params).value == Supplied(p, params)
  {
    var v := Supplied(p, params);
    if !(v == Null && p.nullable) {
      assert ByType(ctx, p, v) == Catch(Convert(ctx.lib, p.kind, v));
      assert Field(ctx, p, params).value == ByType(ctx, p, v).value;
    }
  }

  lemma StableSelection(ctx: Context, schema: seq<Parameter>, params: Entries, key: string)
    requires DistinctKeys(schema) && Validate(ctx, schema, params).Ok? && StableReference(schema, params, key)
    ensures Selected(Validate(ctx, schema, params).value, key) == Selected(params, key)
  {
    var r := Validate(ctx, schema, params).value;
    FieldsKeys(ctx, schema, params);
    if i :| 0 <= i < |schema| && schema[i].key == key {
      assert LastOfItsKey(schema, i);
      FieldsCollect(ctx, schema, params, i);
      KeptValue(ctx, schema[i], params);
      assert r[StrKey(key)] == Supplied(schema[i], params);
    } else {
      assert StrKey(key) !in KeysOf(schema);
    }
  }

  lemma {:induction false} StableParameter(ctx: Context, schema: seq<Parameter>, params: Entries, p: Parameter)
    requires DistinctKeys(schema) && Validate(ctx, schema, params).Ok? && StableReferences(schema, params, p)
    ensures SameEntry(p, params, Validate(ctx, schema, params).value)
    decreases p
  {
    if ReadsRequest(p) {
      StableSelection(ctx, schema, params, p.choices.value.source.keyReference.value);
    }
    forall i | 0 <= i < |p.parameters| ensures SameEntry(p.parameters[i], params, Validate(ctx, schema, params).value) {
      StableParameter(ctx, schema, params, p.parameters[i]);
    }
  }

  /** A request all of whose references are stable is returned unchanged when it is validated again. */
  lemma StableReferencesRevalidate(ctx: Context, schema: seq<Parameter>, params: Entries)
    requires ctx.parameters == params && DistinctEverywhere(schema) && Validate(ctx, schema, params).Ok?
    requires forall i | 0 <= i < |schema| :: StableReferences(schema, params, schema[i])
    ensures var r := Validate(ctx, schema, params).value; Validate(ctx.(parameters := r), schema, r) == Ok(r)
  {
    forall i | 0 <= i < |schema| ensures SameEntry(schema[i], params, Validate(ctx, schema, params).value) {
      StableParameter(ctx, schema, params, schema[i]);
    }
    RevalidationIsIdentity(ctx, schema, params);
  }

  /** A default does not count in the first validation: a reference to a parameter that was left out
      selects "null" there, and its default as soon as the returned parameters are read. */
  lemma DefaultIsReadLate(ctx: Context, schema: seq<Parameter>, params: Entries, i: nat)
    requires DistinctKeys(schema) && Validate(ctx, schema, params).Ok? && i < |schema|
    requires KeptAsSent(schema[i]) && StrKey(schema[i].key) !in params && schema[i].default.Str?
        && schema[i].default.s != ""
    ensures Selected(params, schema[i].key) == Ok("null")
    ensures Selected(Validate(ctx, schema, params).value, schema[i].key) == Ok(schema[i].default.s)
  {
    assert LastOfItsKey(schema, i);
    FieldsCollect(ctx, schema, params, i);
    KeptValue(ctx, schema[i], params);
  }

  // ----- requests that are accepted once -----

  function Bare(key: string, kind: Kind): Parameter {
    Parameter(key, kind, false, false, false, Null, None, None, None, None, [])
  }

  function Chosen(table: map<string, seq<Value>>): Parameter {
    Bare("c", StringKind).(choices := Some(Choices(true, StaticTable(Some("n"), table))))
  }

  lemma TwoFields(ctx: Context, n: Parameter, c: Parameter, params: Entries, x: Value, y: Value)
    requires n.key == "n" && c.key == "c" && params.Keys <= {StrKey("n"), StrKey("c")}
    requires Field(ctx, n, params) == Ok(x) && Field(ctx, c, params) == Ok(y)
    ensures Validate(ctx, [n, c], params) == Ok(map[StrKey("n") := x, StrKey("c") := y])
  {
    var schema := [n, c];
    assert StrKey(schema[0].key) in KeysOf(schema) && StrKey(schema[1].key) in KeysOf(schema);
    assert schema[..1] == [n] && [n][..0] == [];
    assert Fields(ctx, [n], params) == Ok(map[][StrKey("n") := x]);
    assert map[][StrKey("n") := x][StrKey("c") := y] == map[StrKey("n") := x, StrKey("c") := y];
  }

  /** The string "x" passes choices that list it alone under the selected entry. */
  lemma ChoicePasses(ctx: Context, table: map<string, seq<Value>>, entry: string, params: Entries)
    requires Selected(ctx.parameters, "n") == Ok(entry) && entry in table && table[entry] == [Str("x")]
    requires StrKey("c") in params && params[StrKey("c")] == Str("x")
    ensures Field(ctx, Chosen(table), params) == Ok(Str("x"))
  {
    var raw, c := [Str("x")], Chosen(table);
    assert RawAllowed(ctx, c.choices.value.source) == Ok(raw);
    assert Extract(ctx, c, params) == Ok(Str("x"));
    CollapseIsExact(raw);
    assert EntryAllows(raw[0], Str("x"));
    assert CheckChoices(ctx, c, Str("x")) == Ok(());
  }

  /** Two schemas with distinct keys below which nothing is nested. */
  lemma FlatIsDistinct(n: Parameter, c: Parameter)
    requires n.key != c.key && n.parameters == [] && c.parameters == []
    ensures DistinctEverywhere([n, c])
  {
  }

  /** The stored request selects an entry that is not in the table. */
  lemma RejectedAgain(ctx: Context, n: Parameter, table: map<string, seq<Value>>, params: Entries)
    requires n.key == "n" && n.parameters == [] && Validate(ctx, [n, Chosen(table)], params).Ok?
    requires var r := Validate(ctx, [n, Chosen(table)], params).value;
             && StrKey("c") in r && r[StrKey("c")] == Str("x")
             && (Selected(r, "n").Ok? ==> Selected(r, "n").value !in table)
    ensures var r := Validate(ctx, [n, Chosen(table)], params).value;
            Validate(ctx.(parameters := r), [n, Chosen(table)], r).Err?
  {
    var schema, c := [n, Chosen(table)], Chosen(table);
    var r := Validate(ctx, schema, params).value;
    FlatIsDistinct(n, c);
    RevalidatesExactly(ctx, schema, params);
    assert !Listed(r, c, Str("x"));
    assert schema[1] == c && !ParameterListed(r, schema[1], r[StrKey(schema[1].key)]);
  }

  /** A coerced reference: the string "1" selects an entry that the integer it becomes does not. */
  lemma ReferencedChoicesAreNotIdempotent(lib: Library)
    requires lib.parseInt("1") == Some(1) && lib.parseFloat("1") == Some(1.0)
    ensures var schema := [Bare("n", IntegerKind), Chosen(map["1" := [Str("x")]])];
            var params := map[StrKey("n") := Str("1"), StrKey("c") := Str("x")];
            var first := Validate(Context("i", params, lib), schema, params);
            && first == Ok(map[StrKey("n") := Int(1), StrKey("c") := Str("x")])
            && Validate(Context("i", first.value, lib), schema, first.value).Err?
  {
    var n, table := Bare("n", IntegerKind), map["1" := [Str("x")]];
    var params := map[StrKey("n") := Str("1"), StrKey("c") := Str("x")];
    var ctx := Context("i", params, lib);
    assert Field(ctx, n, params) == Ok(Int(1));
    ChoicePasses(ctx, table, "1", params);
    TwoFields(ctx, n, Chosen(table), params, Int(1), Str("x"));
    RejectedAgain(ctx, n, table, params);
  }

  /** A reference to a parameter that was left out: the first validation looks under "null", the
      second one under the default. */
  lemma OmittedReferenceIsNotIdempotent(lib: Library)
    ensures var schema := [Bare("n", StringKind).(default := Str("d")), Chosen(map["null" := [Str("x")]])];
            var params := map[StrKey("c") := Str("x")];
            var first := Validate(Context("i", params, lib), schema, params);
            && first == Ok(map[StrKey("n") := Str("d"), StrKey("c") := Str("x")])
            && Validate(Context("i", first.value, lib), schema, first.value).Err?
  {
    var n, table := Bare("n", StringKind).(default := Str("d")), map["null" := [Str("x")]];
    var params := map[StrKey("c") := Str("x")];
    var ctx := Context("i", params, lib);
    assert Field(ctx, n, params) == Ok(Str("d"));
    ChoicePasses(ctx, table, "null", params);
    TwoFields(ctx, n, Chosen(table), params, Str("d"), Str("x"));
    RejectedAgain(ctx, n, table, params);
  }
}

/** The request validator: what it computes, as functions, and its loops, proved against them. */
module RequestValidator {
  import opened Wrappers
  import opened RequestModel

  function KeysOf(schema: seq<Parameter>): set<Key> {
    set i | 0 <= i < |schema| :: StrKey(schema[i].key)
  }

  /** Constraints are skipped for a missing value and for an optional parameter. */
  predicate Constrained(p: Parameter, v: Value) {
    v != Null && !p.optional
  }

  // ----- choices -----

  function LookUp(table: map<string, seq<Value>>, key: string): Result<seq<Value>, Error> {
    if key in table then Ok(table[key]) else Err(ModelValidation)
  }

  /** The entry of a table that a key reference selects. It reads the request as it was sent, and any
      falsy value there counts as a missing one. */
  function Selected(entries: Entries, reference: string): Result<string, Error> {
    if StrKey(reference) !in entries || !Truthy(entries[StrKey(reference)]) then Ok("null")
    else match entries[StrKey(reference)]
      case Str(s) => Ok(s)
      case List(_) => Err(TypeOrValue)
      case Dict(_) => Err(TypeOrValue)
      case _ => Err(ModelValidation)
  }

  /** The raw list of allowed values. */
  function RawAllowed(ctx: Context, source: Source): Result<seq<Value>, Error> {
    match source
    case StaticList(values) => Ok(values)
    case StaticTable(None, _) => Err(ModelValidation)
    case StaticTable(Some(reference), table) =>
      if reference == "instance_name" then LookUp(table, ctx.instanceName) else
        var entry :- Selected(ctx.parameters, reference);
        LookUp(table, entry)
    case Queried(answer) => answer
    case Unsupported => Err(ModelValidation)
  }

  const VALUE_KEY := StrKey("value")

  /** Choices may be given as {"value": ..., "text": ...}. */
  function Collapse(raw: seq<Value>): Result<seq<Value>, Error> {
    if raw == [] then Ok([]) else
      var rest :- Collapse(raw[..|raw| - 1]);
      var last := raw[|raw| - 1];
      if last.Dict? then
        if VALUE_KEY in last.entries then Ok(rest + [last.entries[VALUE_KEY]]) else Err(KeyMissing)
      else Ok(rest + [last])
  }

  predicate AllIn(values: seq<Value>, allowed: seq<Value>) {
    forall i | 0 <= i < |values| :: PyIn(values[i], allowed)
  }

  function CheckChoices(ctx: Context, p: Parameter, v: Value): Result<(), Error> {
    if !Constrained(p, v) || p.choices.None? || !p.choices.value.strict then Ok(()) else
      var raw :- RawAllowed(ctx, p.choices.value.source);
      var allowed :- Collapse(raw);
      if p.multi then
        if !v.List? then Err(TypeOrValue)
        else if AllIn(v.items, allowed) then Ok(()) else Err(ModelValidation)
      else if PyIn(v, allowed) then Ok(()) else Err(ModelValidation)
  }

  // ----- bounds and pattern -----

  /** A bound of zero is taken for a missing one. */
  predicate HasBound(bound: Option<int>) {
    bound.Some? && bound.value != 0
  }

  function CheckMaximum(p: Parameter, v: Value): Result<(), Error> {
    if !Constrained(p, v) || !HasBound(p.maximum) then Ok(()) else
      var size :- Measure(v);
      if size > p.maximum.value as real then Err(ModelValidation) else Ok(())
  }

  function CheckMinimum(p: Parameter, v: Value): Result<(), Error> {
    if !Constrained(p, v) || !HasBound(p.minimum) then Ok(()) else
      var size :- Measure(v);
      if size < p.minimum.value as real then Err(ModelValidation) else Ok(())
  }

  function CheckRegex(lib: Library, p: Parameter, v: Value): Result<(), Error> {
    if !Constrained(p, v) || p.regex.None? || p.regex.value == "" then Ok(())
    else if !v.Str? then Err(TypeOrValue)
    else if lib.matches(p.regex.value, v.s) then Ok(()) else Err(ModelValidation)
  }

  // ----- types -----

  function Caught(e: Error): Error {
    if e.TypeOrValue? then ModelValidation else e
  }

  function Catch<T>(r: Result<T, Error>): Result<T, Error> {
    match r
    case Ok(_) => r
    case Err(e) => Err(Caught(e))
  }

  /** The branches of the type check that do not recurse. */
  function Convert(lib: Library, kind: Kind, v: Value): Result<Value, Error> {
    match kind
    case StringKind => if v.Str? then Ok(v) else Err(TypeOrValue)
    case IntegerKind =>
      var n :- ToInt(lib, v);
      var x :- ToFloat(lib, v);
      if n as real != x then Err(TypeOrValue) else Ok(Int(n))
    case FloatKind =>
      var x :- ToFloat(lib, v);
      Ok(Float(x))
    case AnyKind => Ok(v)
    case BooleanKind => if PyIn(v, [Bool(true), Bool(false)]) then Ok(v) else Err(TypeOrValue)
    case DictionaryKind =>
      var d :- ToDict(lib, v);
      Ok(Dict(d))
    case DateKind =>
      var n :- ToInt(lib, v);
      Ok(Int(n))
    case DatetimeKind =>
      var n :- ToInt(lib, v);
      Ok(Int(n))
    case UnknownKind => Err(ModelValidation)
  }

  /** _validate_parameter_based_on_type */
  function ByType(ctx: Context, p: Parameter, v: Value): Result<Value, Error>
    decreases p, 0
  {
    if v == Null && !p.nullable then Err(ModelValidation)
    else if p.kind.DictionaryKind? && p.parameters != [] then
      var d :- Catch(ToDict(ctx.lib, v));
      var nested :- Catch(Validate(ctx, p.parameters, d));
      Ok(Dict(nested))
    else Catch(Convert(ctx.lib, p.kind, v))
  }

  function AllByType(ctx: Context, p: Parameter, items: seq<Value>): Result<seq<Value>, Error>
    decreases p, 1, |items|
  {
    if items == [] then Ok([]) else
      var rest :- AllByType(ctx, p, items[..|items| - 1]);
      var last :- ByType(ctx, p, items[|items| - 1]);
      Ok(rest + [last])
  }

  function Supplied(p: Parameter, params: Entries): Value {
    if StrKey(p.key) in params then params[StrKey(p.key)] else p.default
  }

  /** _extract_parameter_value_from_request */
  function Extract(ctx: Context, p: Parameter, params: Entries): Result<Value, Error>
    decreases p, 2
  {
    var v := Supplied(p, params);
    if v == Null && p.nullable then Ok(Null)
    else if p.multi then
      if !v.List? then Err(ModelValidation) else
        var items :- AllByType(ctx, p, v.items);
        Ok(List(items))
    else ByType(ctx, p, v)
  }

  predicate MissingRequired(p: Parameter, params: Entries) {
    !p.optional && StrKey(p.key) !in params && p.default == Null
  }

  /** One parameter: required, extracted, and checked, in this order. */
  function Field(ctx: Context, p: Parameter, params: Entries): Result<Value, Error>
    decreases p, 3
  {
    if MissingRequired(p, params) then Err(ModelValidation) else
      var v :- Extract(ctx, p, params);
      var _ :- CheckChoices(ctx, p, v);
      var _ :- CheckMaximum(p, v);
      var _ :- CheckMinimum(p, v);
      var _ :- CheckRegex(ctx.lib, p, v);
      Ok(v)
  }

  function Fields(ctx: Context, schema: seq<Parameter>, params: Entries): Result<Entries, Error>
    decreases schema, 0
  {
    if schema == [] then Ok(map[]) else
      var p := schema[|schema| - 1];
      var rest :- Fields(ctx, schema[..|schema| - 1], params);
      var v :- Field(ctx, p, params);
      Ok(rest[StrKey(p.key) := v])
  }

  /** get_and_validate_parameters */
  function Validate(ctx: Context, schema: seq<Parameter>, params: Entries): Result<Entries, Error>
    decreases schema, 1
  {
    if params.Keys <= KeysOf(schema) then Fields(ctx, schema, params) else Err(ModelValidation)
  }

  // ----- the loops -----

  method ValidateValueInChoices(ctx: Context, p: Parameter, v: Value) returns (r: Result<(), Error>)
    ensures r == CheckChoices(ctx, p, v)
  {
    if !Constrained(p, v) || p.choices.None? || !p.choices.value.strict {
      return Ok(());
    }
    var raw := RawAllowed(ctx, p.choices.value.source);
    if raw.Err? {
      return Err(raw.error);
    }
    var allowedValues: seq<Value> := [];
    for i := 0 to |raw.value|
      invariant Collapse(raw.value[..i]) == Ok(allowedValues)
    {
      var allowed := raw.value[i];
      assert raw.value[..i + 1][..i] == raw.value[..i];
      if allowed.Dict? {
        if VALUE_KEY !in allowed.entries {
          CollapseFails(raw.value, i + 1);
          return Err(KeyMissing);
        }
        allowedValues := allowedValues + [allowed.entries[VALUE_KEY]];
      } else {
        allowedValues := allowedValues + [allowed];
      }
    }
    assert raw.value[..|raw.value|] == raw.value;
    if p.multi {
      if !v.List? {
        return Err(TypeOrValue);
      }
      for i := 0 to |v.items|
        invariant AllIn(v.items[..i], allowedValues)
      {
        if !PyIn(v.items[i], allowedValues) {
          return Err(ModelValidation);
        }
      }
      return Ok(());
    }
    return if PyIn(v, allowedValues) then Ok(()) else Err(ModelValidation);
  }

  lemma {:induction false} CollapseFails(raw: seq<Value>, n: nat)
    requires n <= |raw| && Collapse(raw[..n]).Err?
    ensures Collapse(raw) == Collapse(raw[..n])
    decreases |raw| - n
  {
    if n == |raw| {
      assert raw[..n] == raw;
    } else {
      assert raw[..n + 1][..n] == raw[..n];
      CollapseFails(raw, n + 1);
    }
  }

  lemma {:induction false} AllByTypeFails(ctx: Context, p: Parameter, items: seq<Value>, n: nat)
    requires n <= |items| && AllByType(ctx, p, items[..n]).Err?
    ensures AllByType(ctx, p, items) == AllByType(ctx, p, items[..n])
    decreases |items| - n
  {
    if n == |items| {
      assert items[..n] == items;
    } else {
      assert items[..n + 1][..n] == items[..n];
      AllByTypeFails(ctx, p, items, n + 1);
    }
  }

  lemma {:induction false} FieldsFail(ctx: Context, schema: seq<Parameter>, params: Entries, n: nat)
    requires n <= |schema| && Fields(ctx, schema[..n], params).Err?
    ensures Fields(ctx, schema, params) == Fields(ctx, schema[..n], params)
    decreases |schema| - n
  {
    if n == |schema| {
      assert schema[..n] == schema;
    } else {
      assert schema[..n + 1][..n] == schema[..n];
      FieldsFail(ctx, schema, params, n + 1);
    }
  }

  method ValidateParameterBasedOnType(ctx: Context, p: Parameter, v: Value) returns (r: Result<Value, Error>)
    ensures r == ByType(ctx, p, v)
    decreases p, 0
  {
    if v == Null && !p.nullable {
      return Err(ModelValidation);
    } else if p.kind.DictionaryKind? && p.parameters != [] {
      var dictValue := ToDict(ctx.lib, v);
      if dictValue.Err? {
        return Err(Caught(dictValue.error));
      }
      var nested := GetAndValidateParameters(ctx, p.parameters, dictValue.value);
      match nested {
        case Ok(entries) => return Ok(Dict(entries));
        case Err(e) => return Err(Caught(e));
      }
    } else {
      return Catch(Convert(ctx.lib, p.kind, v));
    }
  }

  method ExtractParameterValueFromRequest(ctx: Context, p: Parameter, params: Entries) returns (r: Result<Value, Error>)
    ensures r == Extract(ctx, p, params)
    decreases p, 2
  {
    var requestValue := Supplied(p, params);
    if requestValue == Null && p.nullable {
      return Ok(Null);
    }
    if p.multi {
      if !requestValue.List? {
        return Err(ModelValidation);
      }
      var items := requestValue.items;
      var valueToReturn: seq<Value> := [];
      for i := 0 to |items|
        invariant AllByType(ctx, p, items[..i]) == Ok(valueToReturn)
      {
        assert items[..i + 1][..i] == items[..i];
        var value := ValidateParameterBasedOnType(ctx, p, items[i]);
        if value.Err? {
          AllByTypeFails(ctx, p, items, i + 1);
          return Err(value.error);
        }
        valueToReturn := valueToReturn + [value.value];
      }
      assert items[..|items|] == items;
      return Ok(List(valueToReturn));
    }
    r := ValidateParameterBasedOnType(ctx, p, requestValue);
  }

  method ValidateField(ctx: Context, p: Parameter, params: Entries) returns (r: Result<Value, Error>)
    ensures r == Field(ctx, p, params)
    decreases p, 3
  {
    if MissingRequired(p, params) {
      return Err(ModelValidation);
    }
    r := ExtractParameterValueFromRequest(ctx, p, params);
    if r.Err? {
      return;
    }
    var chosen := ValidateValueInChoices(ctx, p, r.value);
    if chosen.Err? {
      return Err(chosen.error);
    }
    var below := CheckMaximum(p, r.value);
    if below.Err? {
      return Err(below.error);
    }
    var above := CheckMinimum(p, r.value);
    if above.Err? {
      return Err(above.error);
    }
    var matched := CheckRegex(ctx.lib, p, r.value);
    if matched.Err? {
      return Err(matched.error);
    }
  }

  method GetAndValidateParameters(ctx: Context, schema: seq<Parameter>, params: Entries)
      returns (r: Result<Entries, Error>)
    ensures r == Validate(ctx, schema, params)
    decreases schema, 1
  {
    if !(params.Keys <= KeysOf(schema)) {
      return Err(ModelValidation);
    }
    var parametersToSave: Entries := map[];
    for i := 0 to |schema|
      invariant Fields(ctx, schema[..i], params) == Ok(parametersToSave)
    {
      assert schema[..i + 1][..i] == schema[..i];
      var extracted := ValidateField(ctx, schema[i], params);
      if extracted.Err? {
        FieldsFail(ctx, schema, params, i + 1);
        return Err(extracted.error);
      }
      parametersToSave := parametersToSave[StrKey(schema[i].key) := extracted.value];
    }
    assert schema[..|schema|] == schema;
    return Ok(parametersToSave);
  }
}

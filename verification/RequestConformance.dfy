/** A declarative account of accepted requests, without loops, error flow or evaluation order, and
    the proof that the validator accepts exactly these, with exactly these results. */
module RequestConformance {
  import opened Wrappers
  import opened RequestModel
  import opened RequestValidator

  /** The element of a list that stands for the entry `key: value` of a dictionary: two values, of which
      the first can be a key. */
  ghost predicate IsEntry(lib: Library, v: Value, key: Key, value: Value) {
    match v
    case List(items) => |items| == 2 && IsKey(items[0], key) && value == items[1]
    case Str(s) => |s| == 2 && key == StrKey([s[0]]) && value == Str([s[1]])
    case Dict(entries) => |entries| == 2 && key == lib.twoKeys(entries).0 && IsKeyValue(value, lib.twoKeys(entries).1)
    case _ => false
  }

  /** The number that v is. */
  ghost predicate HasValue(v: Value, x: real) {
    match v
    case Bool(b) => x == if b then 1.0 else 0.0
    case Int(n) => x == n as real
    case Float(y) => x == y
    case _ => false
  }

  ghost predicate IsKey(v: Value, key: Key) {
    match key
    case NullKey => v == Null
    case StrKey(s) => v == Str(s)
    case NumKey(x) => HasValue(v, x)
  }

  /** The value that Python hands out for a key. */
  ghost predicate IsKeyValue(v: Value, key: Key) {
    match key
    case StrKey(s) => v == Str(s)
    case NumKey(x) => v == Float(x)
    case NullKey => v == Null
  }

  /** No later element stands for an entry with the key. */
  ghost predicate LastEntry(lib: Library, items: seq<Value>, i: nat, key: Key) {
    forall j, value | i < j < |items| :: !IsEntry(lib, items[j], key, value)
  }

  /** Every element stands for an entry, and the last entry of each key counts. */
  ghost predicate ArePairsOf(lib: Library, items: seq<Value>, d: Entries) {
    && (forall i | 0 <= i < |items| :: HasEntry(lib, items[i]))
    && (forall key :: key in d <==> exists i, value :: 0 <= i < |items| && IsEntry(lib, items[i], key, value))
    && (forall i, key, value | 0 <= i < |items| && IsEntry(lib, items[i], key, value)
        && LastEntry(lib, items, i, key) ::
          key in d && d[key] == value)
  }

  ghost predicate HasEntry(lib: Library, v: Value) {
    exists key, value :: IsEntry(lib, v, key, value)
  }

  /** The dictionary that Python makes of v. */
  ghost predicate IsDictOf(lib: Library, v: Value, d: Entries) {
    match v
    case Dict(entries) => d == entries
    case List(items) => ArePairsOf(lib, items, d)
    case Str(s) => s == "" && d == map[]
    case _ => false
  }

  /** `w` is the value of type `kind` that `v` stands for. */
  ghost predicate Denotes(lib: Library, kind: Kind, v: Value, w: Value) {
    match kind
    case StringKind => v.Str? && w == v
    case IntegerKind => w.Int? && WholeNumber(lib, v, w.n)
    case FloatKind => w.Float? && (if v.Str? then lib.parseFloat(v.s) == Some(w.x) else HasValue(v, w.x))
    case AnyKind => w == v
    case BooleanKind => (HasValue(v, 0.0) || HasValue(v, 1.0)) && w == v
    case DictionaryKind => w.Dict? && IsDictOf(lib, v, w.entries)
    case DateKind => w.Int? && WholePart(lib, v, w.n)
    case DatetimeKind => w.Int? && WholePart(lib, v, w.n)
    case UnknownKind => false
  }

  /** v is a number equal to n, or a string that reads as n both as an integer and as a float. */
  ghost predicate WholeNumber(lib: Library, v: Value, n: int) {
    if v.Str? then lib.parseInt(v.s) == Some(n) && lib.parseFloat(v.s) == Some(n as real)
    else HasValue(v, n as real)
  }

  /** v is a number, or reads as one, whose part before the point is n. */
  ghost predicate WholePart(lib: Library, v: Value, n: int) {
    if v.Str? then lib.parseInt(v.s) == Some(n)
    else exists x: real :: HasValue(v, x) && Towards(x, n)
  }

  /** n is the integer next to x on the side of zero. */
  ghost predicate Towards(x: real, n: int) {
    if x >= 0.0 then n as real <= x < n as real + 1.0 else n as real - 1.0 < x <= n as real
  }

  ghost predicate Coerces(ctx: Context, p: Parameter, v: Value, w: Value)
    decreases p, 0
  {
    && (v == Null ==> p.nullable)
    && if p.kind.DictionaryKind? && p.parameters != [] then
         exists d: Entries :: IsDictOf(ctx.lib, v, d) && w.Dict? && Conforms(ctx, p.parameters, d, w.entries)
       else Denotes(ctx.lib, p.kind, v, w)
  }

  /** What Python takes for false. */
  ghost predicate Falsy(v: Value) {
    || v == Null || v == Bool(false) || v == Int(0) || v == Float(0.0)
    || v == Str("") || v == List([]) || v == Dict(map[])
  }

  /** `raw` is the list of allowed values: the list as it is given; or the entry of a table that is named
      after the instance of the request, or after the text that the request holds under the reference,
      or "null" if it holds nothing there or something false; or what the query returned. */
  ghost predicate IsRawList(ctx: Context, source: Source, raw: seq<Value>) {
    match source
    case StaticList(values) => raw == values
    case StaticTable(None, _) => false
    case StaticTable(Some(reference), table) =>
      exists entry: string ::
        && entry in table && table[entry] == raw
        && (if reference == "instance_name" then entry == ctx.instanceName
            else if StrKey(reference) in ctx.parameters && !Falsy(ctx.parameters[StrKey(reference)]) then
              ctx.parameters[StrKey(reference)] == Str(entry)
            else entry == "null")
    case Queried(answer) => answer == Ok(raw)
    case Unsupported => false
  }

  /** The value that an entry of the list allows: {"value": ..., "text": ...} stands for its value. */
  ghost predicate EntryAllows(entry: Value, v: Value) {
    if entry.Dict? && StrKey("value") in entry.entries then PyEqual(v, entry.entries[StrKey("value")])
    else PyEqual(v, entry)
  }

  ghost predicate Allows(raw: seq<Value>, v: Value) {
    exists i :: 0 <= i < |raw| && EntryAllows(raw[i], v)
  }

  ghost predicate WithinChoices(ctx: Context, p: Parameter, v: Value) {
    p.choices.Some? && p.choices.value.strict ==>
      exists raw: seq<Value> :: IsRawList(ctx, p.choices.value.source, raw)
        && (forall i | 0 <= i < |raw| && raw[i].Dict? :: StrKey("value") in raw[i].entries)
        && (if p.multi then v.List? && forall j | 0 <= j < |v.items| :: Allows(raw, v.items[j]) else Allows(raw, v))
  }

  /** What a bound is compared with. */
  ghost predicate HasSize(v: Value, size: real) {
    match v
    case Bool(b) => size == if b then 1.0 else 0.0
    case Int(n) => size == n as real
    case Float(x) => size == x
    case Str(s) => size == |s| as real
    case List(items) => size == |items| as real
    case _ => false
  }

  /** A bound of zero does not count. */
  ghost predicate WithinBounds(p: Parameter, v: Value) {
    var above, below := p.maximum.Some? && p.maximum.value != 0, p.minimum.Some? && p.minimum.value != 0;
    above || below ==>
      exists size :: HasSize(v, size)
        && (above ==> size <= p.maximum.value as real)
        && (below ==> size >= p.minimum.value as real)
  }

  ghost predicate MatchesPattern(lib: Library, p: Parameter, v: Value) {
    p.regex.Some? && p.regex.value != "" ==> v.Str? && lib.matches(p.regex.value, v.s)
  }

  /** w is what the value v of parameter p stands for, element by element if p is a list. */
  ghost predicate StandsFor(ctx: Context, p: Parameter, v: Value, w: Value)
    decreases p, 1
  {
    if v == Null && p.nullable then w == Null
    else if p.multi then
      v.List? && w.List? && |w.items| == |v.items| && forall i | 0 <= i < |v.items| ::
          Coerces(ctx, p, v.items[i], w.items[i])
    else Coerces(ctx, p, v, w)
  }

  /** w is what parameter p contributes for the given request entries. */
  ghost predicate Admits(ctx: Context, p: Parameter, params: Entries, w: Value)
    decreases p, 2
  {
    && (StrKey(p.key) in params || p.default != Null || p.optional)
    && StandsFor(ctx, p, if StrKey(p.key) in params then params[StrKey(p.key)] else p.default, w)
    && (w != Null && !p.optional ==> WithinChoices(ctx, p, w) && WithinBounds(p, w) && MatchesPattern(ctx.lib, p, w))
  }

  ghost predicate LastOfItsKey(schema: seq<Parameter>, i: nat)
    requires i < |schema|
  {
    forall j | i < j < |schema| :: schema[j].key != schema[i].key
  }

  /** The request names no undeclared key; the result has every declared key and no other; every
      parameter admits some value, and the last parameter of each key decides the result. */
  ghost predicate Conforms(ctx: Context, schema: seq<Parameter>, params: Entries, result: Entries)
    decreases schema, 1
  {
    && params.Keys <= KeysOf(schema)
    && result.Keys == KeysOf(schema)
    && forall i | 0 <= i < |schema| :: Explained(ctx, schema, i, params, result)
  }

  ghost predicate Explained(ctx: Context, schema: seq<Parameter>, i: nat, params: Entries, result: Entries)
    requires i < |schema| && result.Keys == KeysOf(schema)
    decreases schema, 0
  {
    exists w :: Admits(ctx, schema[i], params, w) && (LastOfItsKey(schema, i) ==> result[StrKey(schema[i].key)] == w)
  }

  // ----- dictionaries -----

  lemma ToPairIsExact(lib: Library, v: Value, key: Key, value: Value)
    ensures ToPair(lib, v) == Ok((key, value)) <==> IsEntry(lib, v, key, value)
  {
  }

  /** An element stands for at most one entry, which ToPair finds. */
  lemma EntryOf(lib: Library, v: Value)
    ensures ToPair(lib, v).Ok? <==> HasEntry(lib, v)
    ensures forall key, value :: IsEntry(lib, v, key, value) <==> ToPair(lib, v) == Ok((key, value))
  {
    forall key, value ensures IsEntry(lib, v, key, value) <==> ToPair(lib, v) == Ok((key, value)) {
      ToPairIsExact(lib, v, key, value);
    }
    if ToPair(lib, v).Ok? {
      var (key, value) := ToPair(lib, v).value;
      assert IsEntry(lib, v, key, value);
    }
  }

  /** The last element of a list adds its entry or replaces the one of the same key. */
  lemma PairsSnoc(lib: Library, init: seq<Value>, last: Value, rest: Entries, key: Key, value: Value)
    requires ArePairsOf(lib, init, rest) && ToPair(lib, last) == Ok((key, value))
    ensures ArePairsOf(lib, init + [last], rest[key := value])
  {
    var items, d := init + [last], rest[key := value];
    EntryOf(lib, last);
    assert items[|init|] == last && forall i | 0 <= i < |init| :: items[i] == init[i];
    forall k ensures k in d <==> exists i, v :: 0 <= i < |items| && IsEntry(lib, items[i], k, v) {
      if k == key {
        assert IsEntry(lib, items[|init|], k, value);
      } else if k in rest {
        var i, v :| 0 <= i < |init| && IsEntry(lib, init[i], k, v);
        assert IsEntry(lib, items[i], k, v);
      }
    }
    forall i, k, v | 0 <= i < |items| && IsEntry(lib, items[i], k, v) && LastEntry(lib, items, i, k)
      ensures k in d && d[k] == v
    {
      if i < |init| {
        assert !IsEntry(lib, items[|init|], key, value) || k != key;
        assert LastEntry(lib, init, i, k) by {
          forall j, u | i < j < |init| ensures !IsEntry(lib, init[j], k, u) {
            assert !IsEntry(lib, items[j], k, u);
          }
        }
      }
    }
  }

  /** What dict() makes of a list, without the order in which it goes through it. */
  lemma {:induction false} PairsAreExact(lib: Library, items: seq<Value>)
    ensures PairsToDict(lib, items).Ok? <==> forall i | 0 <= i < |items| :: HasEntry(lib, items[i])
    ensures PairsToDict(lib, items).Ok? ==> ArePairsOf(lib, items, PairsToDict(lib, items).value)
  {
    if items != [] {
      var init, last := items[..|items| - 1], items[|items| - 1];
      PairsAreExact(lib, init);
      EntryOf(lib, last);
      assert items == init + [last];
      if PairsToDict(lib, items).Ok? {
        var (key, value) := ToPair(lib, last).value;
        PairsSnoc(lib, init, last, PairsToDict(lib, init).value, key, value);
      }
    }
  }

  lemma {:induction false} LastEntryOf(lib: Library, items: seq<Value>, key: Key, n: nat) returns (i: nat, value: Value)
    requires n <= |items| && exists j, v :: 0 <= j < n && IsEntry(lib, items[j], key, v)
    requires forall j, v | n <= j < |items| :: !IsEntry(lib, items[j], key, v)
    ensures i < |items| && IsEntry(lib, items[i], key, value) && LastEntry(lib, items, i, key)
    decreases n
  {
    var last := items[n - 1];
    if v :| IsEntry(lib, last, key, v) {
      i, value := n - 1, v;
    } else {
      i, value := LastEntryOf(lib, items, key, n - 1);
    }
  }

  /** A list makes at most one dictionary. */
  lemma PairsAreUnique(lib: Library, items: seq<Value>, d: Entries, e: Entries)
    requires ArePairsOf(lib, items, d) && ArePairsOf(lib, items, e)
    ensures d == e
  {
    forall key | key in d ensures key in e && d[key] == e[key] {
      var i, value := LastEntryOf(lib, items, key, |items|);
    }
    assert d.Keys == e.Keys;
  }

  lemma ToDictIsExact(lib: Library, v: Value, d: Entries)
    ensures ToDict(lib, v) == Ok(d) <==> IsDictOf(lib, v, d)
  {
    if v.List? {
      PairsAreExact(lib, v.items);
      if ArePairsOf(lib, v.items, d) && PairsToDict(lib, v.items).Ok? {
        PairsAreUnique(lib, v.items, d, PairsToDict(lib, v.items).value);
      }
    }
  }

  // ----- the other non-recursive parts -----

  lemma TruncateIsTowards(x: real, n: int)
    ensures Towards(x, n) <==> n == Truncate(x)
  {
  }

  lemma ConvertIsExact(lib: Library, kind: Kind, v: Value, w: Value)
    ensures Convert(lib, kind, v) == Ok(w) <==> Denotes(lib, kind, v, w)
  {
    match kind {
      case IntegerKind =>
        if v.Float? && w.Int? {
          TruncateIsTowards(v.x, w.n);
          TruncateIsTowards(v.x, Truncate(v.x));
        }
      case DateKind => WholePartIsExact(lib, v, w);
      case DatetimeKind => WholePartIsExact(lib, v, w);
      case DictionaryKind =>
        if w.Dict? {
          ToDictIsExact(lib, v, w.entries);
        }
      case BooleanKind =>
        assert PyIn(v, [Bool(true), Bool(false)]) <==> Number(v) in {Some(0.0), Some(1.0)} by {
          assert PyEqual(v, [Bool(true), Bool(false)][0]) <==> Number(v) == Some(1.0);
          assert PyEqual(v, [Bool(true), Bool(false)][1]) <==> Number(v) == Some(0.0);
        }
      case _ =>
    }
  }

  lemma TowardsWhole(m: int, n: int)
    ensures Towards(m as real, n) <==> n == m
  {
  }

  lemma WholePartIsExact(lib: Library, v: Value, w: Value)
    ensures w.Int? ==> (ToInt(lib, v) == Ok(w.n) <==> WholePart(lib, v, w.n))
  {
    if w.Int? && Number(v).Some? {
      assert forall x :: HasValue(v, x) <==> x == Number(v).value;
      assert WholePart(lib, v, w.n) <==> Towards(Number(v).value, w.n);
      match v {
        case Bool(b) => TowardsWhole(if b then 1 else 0, w.n);
        case Int(m) => TowardsWhole(m, w.n);
        case Float(x) => TruncateIsTowards(x, w.n);
      }
    }
  }

  // ----- equality, truth and size -----

  lemma NumberMeaning(v: Value, x: real)
    ensures Number(v) == Some(x) <==> HasValue(v, x)
    ensures Number(v).None? <==> v == Null || v.Str? || v.List? || v.Dict?
  {
  }

  lemma DeclaredKeys(schema: seq<Parameter>)
    ensures forall k :: k in KeysOf(schema) <==> exists i :: 0 <= i < |schema| && k == StrKey(schema[i].key)
  {
  }

  /** Python's == : numbers of all types by value, text and lists element by element, dictionaries entry
      by entry, and nothing else. */
  lemma PyEqualMeaning(v: Value, w: Value)
    ensures PyEqual(v, w) <==>
              || (v == Null && w == Null)
              || (exists x: real :: HasValue(v, x) && HasValue(w, x))
              || (v.Str? && w.Str? && v.s == w.s)
              || (v.List? && w.List? && |v.items| == |w.items|
                  && forall i | 0 <= i < |v.items| :: PyEqual(v.items[i], w.items[i]))
              || (v.Dict? && w.Dict? && v.entries.Keys == w.entries.Keys
                  && forall k | k in v.entries :: PyEqual(v.entries[k], w.entries[k]))
  {
    if (v.Bool? || v.Int? || v.Float?) && (w.Bool? || w.Int? || w.Float?) {
      assert HasValue(v, Canonical(v).x) && HasValue(w, Canonical(w).x);
    } else if v.List? && w.List? {
      EqualLists(v, w);
    } else if v.Dict? && w.Dict? {
      EqualDicts(v, w);
    }
  }

  lemma EqualLists(v: Value, w: Value)
    requires v.List? && w.List?
    ensures PyEqual(v, w) <==>
              |v.items| == |w.items| && forall i | 0 <= i < |v.items| :: PyEqual(v.items[i], w.items[i])
  {
    var a, b := Canonical(v).items, Canonical(w).items;
    assert |a| == |v.items| && |b| == |w.items|;
    assert forall i | 0 <= i < |a| :: a[i] == Canonical(v.items[i]);
    assert forall i | 0 <= i < |b| :: b[i] == Canonical(w.items[i]);
    if PyEqual(v, w) {
      forall i | 0 <= i < |v.items| ensures PyEqual(v.items[i], w.items[i]) {
        assert a[i] == b[i];
      }
    }
    if |a| == |b| && forall i | 0 <= i < |a| :: PyEqual(v.items[i], w.items[i]) {
      assert a == b;
    }
  }

  lemma EqualDicts(v: Value, w: Value)
    requires v.Dict? && w.Dict?
    ensures PyEqual(v, w) <==>
              v.entries.Keys == w.entries.Keys && forall k | k in v.entries :: PyEqual(v.entries[k], w.entries[k])
  {
    var a, b := Canonical(v).entries, Canonical(w).entries;
    assert a.Keys == v.entries.Keys && b.Keys == w.entries.Keys;
    assert forall k | k in a :: a[k] == Canonical(v.entries[k]);
    assert forall k | k in b :: b[k] == Canonical(w.entries[k]);
    if a.Keys == b.Keys && forall k | k in a :: PyEqual(v.entries[k], w.entries[k]) {
      assert a == b;
    }
  }

  lemma FalsyIsExact(v: Value)
    ensures Falsy(v) <==> !Truthy(v)
  {
  }

  lemma MeasureIsExact(v: Value, size: real)
    ensures Measure(v) == Ok(size) <==> HasSize(v, size)
  {
  }

  lemma Unmeasured(v: Value)
    ensures Measure(v).Ok? <==> exists size :: HasSize(v, size)
  {
    forall size ensures Measure(v) == Ok(size) <==> HasSize(v, size) {
      MeasureIsExact(v, size);
    }
    assert Measure(v).Ok? ==> HasSize(v, Measure(v).value);
  }

  // ----- choices -----

  /** Where the allowed values come from, for every kind of choices. */
  lemma RawListIsExact(ctx: Context, source: Source, raw: seq<Value>)
    ensures RawAllowed(ctx, source) == Ok(raw) <==> IsRawList(ctx, source, raw)
  {
    if source.StaticTable? && source.keyReference.Some? {
      var key := StrKey(source.keyReference.value);
      if key in ctx.parameters {
        FalsyIsExact(ctx.parameters[key]);
      }
    }
  }

  lemma {:induction false} CollapseIsExact(raw: seq<Value>)
    ensures Collapse(raw).Ok? <==> forall i | 0 <= i < |raw| && raw[i].Dict? :: StrKey("value") in raw[i].entries
    ensures Collapse(raw).Ok? ==> forall v :: PyIn(v, Collapse(raw).value) <==> Allows(raw, v)
  {
    if raw != [] {
      var init, last := raw[..|raw| - 1], raw[|raw| - 1];
      CollapseIsExact(init);
      assert forall i | 0 <= i < |init| :: init[i] == raw[i];
      if Collapse(raw).Ok? {
        var rest, all := Collapse(init).value, Collapse(raw).value;
        var value := if last.Dict? then last.entries[StrKey("value")] else last;
        assert all == rest + [value];
        forall v ensures PyIn(v, all) <==> Allows(raw, v) {
          InAppended(v, rest, value);
          AllowsAppended(init, last, v);
          assert raw == init + [last];
        }
      }
    }
  }

  lemma InAppended(v: Value, values: seq<Value>, last: Value)
    ensures PyIn(v, values + [last]) <==> PyIn(v, values) || PyEqual(v, last)
  {
    var all := values + [last];
    if PyIn(v, values) {
      var i :| 0 <= i < |values| && PyEqual(v, values[i]);
      assert all[i] == values[i];
    }
    assert all[|values|] == last;
  }

  lemma AllowsAppended(raw: seq<Value>, last: Value, v: Value)
    ensures Allows(raw + [last], v) <==> Allows(raw, v) || EntryAllows(last, v)
  {
    var all := raw + [last];
    assert all[|raw|] == last;
    assert forall i | 0 <= i < |raw| :: all[i] == raw[i];
    if Allows(raw, v) {
      var i :| 0 <= i < |raw| && EntryAllows(raw[i], v);
      assert EntryAllows(all[i], v);
    }
  }

  lemma ChoicesAreExact(ctx: Context, p: Parameter, v: Value)
    ensures CheckChoices(ctx, p, v).Ok? <==> (Constrained(p, v) ==> WithinChoices(ctx, p, v))
  {
    if Constrained(p, v) && p.choices.Some? && p.choices.value.strict {
      var source := p.choices.value.source;
      forall raw ensures RawAllowed(ctx, source) == Ok(raw) <==> IsRawList(ctx, source, raw) {
        RawListIsExact(ctx, source, raw);
      }
      var raw := RawAllowed(ctx, source);
      if raw.Ok? {
        assert IsRawList(ctx, source, raw.value);
        CollapseIsExact(raw.value);
      }
    }
  }

  lemma BoundsAreExact(p: Parameter, v: Value)
    requires Constrained(p, v)
    ensures CheckMaximum(p, v).Ok? && CheckMinimum(p, v).Ok? <==> WithinBounds(p, v)
  {
    Unmeasured(v);
    forall size ensures Measure(v) == Ok(size) <==> HasSize(v, size) {
      MeasureIsExact(v, size);
    }
  }

  lemma ChecksAreExact(ctx: Context, p: Parameter, v: Value)
    ensures (&& CheckChoices(ctx, p, v).Ok? && CheckMaximum(p, v).Ok?
             && CheckMinimum(p, v).Ok? && CheckRegex(ctx.lib, p, v).Ok?)
            <==> (v != Null && !p.optional ==>
                    WithinChoices(ctx, p, v) && WithinBounds(p, v) && MatchesPattern(ctx.lib, p, v))
  {
    ChoicesAreExact(ctx, p, v);
    if Constrained(p, v) {
      BoundsAreExact(p, v);
    }
  }

  // ----- the recursion -----

  lemma {:induction false} ByTypeIsExact(ctx: Context, p: Parameter, v: Value, w: Value)
    ensures ByType(ctx, p, v) == Ok(w) <==> Coerces(ctx, p, v, w)
    decreases p, 0
  {
    if v == Null && !p.nullable {
    } else if p.kind.DictionaryKind? && p.parameters != [] {
      forall d: Entries ensures ToDict(ctx.lib, v) == Ok(d) <==> IsDictOf(ctx.lib, v, d) {
        ToDictIsExact(ctx.lib, v, d);
      }
      var d := ToDict(ctx.lib, v);
      if d.Ok? {
        assert IsDictOf(ctx.lib, v, d.value);
        if w.Dict? {
          ValidateIsExact(ctx, p.parameters, d.value, w.entries);
        }
      }
    } else {
      ConvertIsExact(ctx.lib, p.kind, v, w);
    }
  }

  lemma {:induction false} AllByTypeIsExact(ctx: Context, p: Parameter, items: seq<Value>, ws: seq<Value>)
    ensures AllByType(ctx, p, items) == Ok(ws) <==>
              |ws| == |items| && forall i | 0 <= i < |items| :: Coerces(ctx, p, items[i], ws[i])
    decreases p, 1, |items|
  {
    if items != [] && ws != [] {
      var init, last := items[..|items| - 1], items[|items| - 1];
      var winit, wlast := ws[..|ws| - 1], ws[|ws| - 1];
      AllByTypeIsExact(ctx, p, init, winit);
      ByTypeIsExact(ctx, p, last, wlast);
      assert ws == winit + [wlast];
      var all := AllByType(ctx, p, items);
      if all == Ok(ws) {
        var rest, z := AllByType(ctx, p, init).value, ByType(ctx, p, last).value;
        assert rest == (rest + [z])[..|rest|] == winit;
      }
      if |ws| == |items| && forall i | 0 <= i < |items| :: Coerces(ctx, p, items[i], ws[i]) {
        assert forall i | 0 <= i < |init| :: Coerces(ctx, p, items[i], ws[i]);
      }
    }
  }

  lemma {:induction false} ExtractIsExact(ctx: Context, p: Parameter, params: Entries, w: Value)
    ensures Extract(ctx, p, params) == Ok(w) <==> StandsFor(ctx, p, Supplied(p, params), w)
    decreases p, 2
  {
    var v := Supplied(p, params);
    if v == Null && p.nullable {
    } else if p.multi {
      if v.List? && w.List? {
        AllByTypeIsExact(ctx, p, v.items, w.items);
      }
    } else {
      ByTypeIsExact(ctx, p, v, w);
    }
  }

  lemma {:induction false} FieldIsExact(ctx: Context, p: Parameter, params: Entries, w: Value)
    ensures Field(ctx, p, params) == Ok(w) <==> Admits(ctx, p, params, w)
    decreases p, 3
  {
    ExtractIsExact(ctx, p, params, w);
    ChecksAreExact(ctx, p, w);
  }

  lemma KeysOfSnoc(schema: seq<Parameter>)
    requires schema != []
    ensures KeysOf(schema) == KeysOf(schema[..|schema| - 1]) + {StrKey(schema[|schema| - 1].key)}
  {
    var init := schema[..|schema| - 1];
    forall i | 0 <= i < |init| ensures StrKey(schema[i].key) in KeysOf(init) {
      assert init[i] == schema[i];
    }
  }

  /** The loop over the schema succeeds exactly when every field does, ... */
  lemma {:induction false} FieldsSucceed(ctx: Context, schema: seq<Parameter>, params: Entries)
    ensures Fields(ctx, schema, params).Ok? <==> forall i | 0 <= i < |schema| :: Field(ctx, schema[i], params).Ok?
    decreases |schema|
  {
    if schema != [] {
      var last := |schema| - 1;
      FieldsSucceed(ctx, schema[..last], params);
      assert forall i | 0 <= i < last :: schema[..last][i] == schema[i];
    }
  }

  lemma {:induction false} FieldsKeys(ctx: Context, schema: seq<Parameter>, params: Entries)
    requires Fields(ctx, schema, params).Ok?
    ensures Fields(ctx, schema, params).value.Keys == KeysOf(schema)
    decreases |schema|
  {
    if schema != [] {
      FieldsKeys(ctx, schema[..|schema| - 1], params);
      KeysOfSnoc(schema);
    }
  }

  /** ... and the last field of each key decides. */
  lemma {:induction false} FieldsCollect(ctx: Context, schema: seq<Parameter>, params: Entries, i: nat)
    requires Fields(ctx, schema, params).Ok? && i < |schema| && LastOfItsKey(schema, i)
    ensures Fields(ctx, schema, params).value.Keys == KeysOf(schema)
    ensures Field(ctx, schema[i], params) == Ok(Fields(ctx, schema, params).value[StrKey(schema[i].key)])
    decreases |schema|
  {
    FieldsKeys(ctx, schema, params);
    var last := |schema| - 1;
    var init := schema[..last];
    if i < last {
      assert schema[last].key != schema[i].key;
      assert init[i] == schema[i];
      assert LastOfItsKey(init, i) by {
        assert forall j | i < j < last :: init[j] == schema[j];
      }
      FieldsCollect(ctx, init, params, i);
    }
  }

  /** Every key of a schema has a last parameter. */
  lemma {:induction false} LastExists(schema: seq<Parameter>, k: Key) returns (i: nat)
    requires k in KeysOf(schema)
    ensures i < |schema| && StrKey(schema[i].key) == k && LastOfItsKey(schema, i)
    decreases |schema|
  {
    var last := |schema| - 1;
    if StrKey(schema[last].key) == k {
      i := last;
    } else {
      i := LastExists(schema[..last], k);
      forall j | i < j < |schema| ensures schema[j].key != schema[i].key {
        assert j < last ==> schema[..last][j] == schema[j];
      }
    }
  }

  /** Parameter i contributes some value, which is in the result if no later parameter has its key. */
  ghost predicate Contributes(ctx: Context, schema: seq<Parameter>, i: nat, params: Entries, result: Entries)
    requires i < |schema| && result.Keys == KeysOf(schema)
  {
    exists w :: Field(ctx, schema[i], params) == Ok(w)
        && (LastOfItsKey(schema, i) ==> result[StrKey(schema[i].key)] == w)
  }

  lemma FieldsAreExact(ctx: Context, schema: seq<Parameter>, params: Entries, result: Entries)
    ensures Fields(ctx, schema, params) == Ok(result) <==>
              result.Keys == KeysOf(schema) && forall i | 0 <= i < |schema| ::
                  Contributes(ctx, schema, i, params, result)
  {
    FieldsSucceed(ctx, schema, params);
    if Fields(ctx, schema, params).Ok? {
      FieldsKeys(ctx, schema, params);
    }
    if Fields(ctx, schema, params) == Ok(result) {
      forall i | 0 <= i < |schema| ensures Contributes(ctx, schema, i, params, result) {
        if LastOfItsKey(schema, i) {
          FieldsCollect(ctx, schema, params, i);
        }
      }
    }
    if result.Keys == KeysOf(schema) && forall i | 0 <= i < |schema| :: Contributes(ctx, schema, i, params, result) {
      forall i | 0 <= i < |schema| ensures Field(ctx, schema[i], params).Ok? {
        assert Contributes(ctx, schema, i, params, result);
      }
      FieldsKeys(ctx, schema, params);
      var r := Fields(ctx, schema, params).value;
      forall k | k in result ensures r[k] == result[k] {
        var i := LastExists(schema, k);
        FieldsCollect(ctx, schema, params, i);
        assert Contributes(ctx, schema, i, params, result);
      }
      assert r == result;
    }
  }

  lemma {:induction false} ContributesIsExact(ctx: Context, schema: seq<Parameter>, i: nat, params: Entries,
      result: Entries)
    requires i < |schema| && result.Keys == KeysOf(schema)
    ensures Contributes(ctx, schema, i, params, result) <==> Explained(ctx, schema, i, params, result)
    decreases schema, 0
  {
    var p := schema[i];
    forall w ensures Field(ctx, p, params) == Ok(w) <==> Admits(ctx, p, params, w) {
      FieldIsExact(ctx, p, params, w);
    }
  }

  /** Exactness: the validator accepts a request with result `result` exactly when the request
      conforms to the schema with that result, at every level of nesting. */
  lemma {:induction false} ValidateIsExact(ctx: Context, schema: seq<Parameter>, params: Entries, result: Entries)
    ensures Validate(ctx, schema, params) == Ok(result) <==> Conforms(ctx, schema, params, result)
    decreases schema, 1
  {
    FieldsAreExact(ctx, schema, params, result);
    if result.Keys == KeysOf(schema) {
      forall i | 0 <= i < |schema|
        ensures Contributes(ctx, schema, i, params, result) <==> Explained(ctx, schema, i, params, result)
      {
        ContributesIsExact(ctx, schema, i, params, result);
      }
    }
  }
}

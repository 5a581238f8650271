/** Request values, command schemas, and the Python operations the validator applies to values. */
module RequestModel {
  import opened Wrappers

  /** Dictionary keys, up to Python equality: 1, 1.0 and True are one key. */
  datatype Key = StrKey(text: string) | NumKey(number: real) | NullKey

  datatype Value =
    | Null
    | Bool(b: bool)
    | Int(n: int)
    | Float(x: real)
    | Str(s: string)
    | List(items: seq<Value>)
    | Dict(entries: map<Key, Value>)

  type Entries = map<Key, Value>

  /** ModelValidation is the validator's own error. TypeOrValue stands for TypeError and ValueError,
      which the type check turns into ModelValidation; KeyMissing is a KeyError, which it does not. */
  datatype Error = ModelValidation | TypeOrValue | KeyMissing

  datatype Kind =
    | StringKind | IntegerKind | FloatKind | AnyKind | BooleanKind
    | DictionaryKind | DateKind | DatetimeKind | UnknownKind

  /** Where the allowed values come from. `Queried` is what a url or command query returned;
      `Unsupported` is a choices value or type that the validator does not understand. */
  datatype Source =
    | StaticList(values: seq<Value>)
    | StaticTable(keyReference: Option<string>, table: map<string, seq<Value>>)
    | Queried(answer: Result<seq<Value>, Error>)
    | Unsupported

  datatype Choices = Choices(strict: bool, source: Source)

  datatype Parameter = Parameter(
    key: string, kind: Kind, multi: bool, optional: bool, nullable: bool, default: Value,
    choices: Option<Choices>, maximum: Option<int>, minimum: Option<int>, regex: Option<string>,
    parameters: seq<Parameter>)

  /** Library functions the validator calls: Python's parsing of numbers from strings, `re.match`,
      and the order in which a dictionary yields two keys. */
  datatype Library = Library(
    parseInt: string -> Option<int>, parseFloat: string -> Option<real>,
    matches: (string, string) -> bool, twoKeys: Entries -> (Key, Key))

  /** The request as the checks read it: its instance name and its parameters as they were sent. */
  datatype Context = Context(instanceName: string, parameters: Entries, lib: Library)

  function Number(v: Value): Option<real> {
    match v
    case Bool(b) => Some(if b then 1.0 else 0.0)
    case Int(n) => Some(n as real)
    case Float(x) => Some(x)
    case _ => None
  }

  /** One representative per class of equal Python values. */
  function Canonical(v: Value): Value {
    match v
    case Bool(b) => Float(if b then 1.0 else 0.0)
    case Int(n) => Float(n as real)
    case List(items) => List(seq(|items|, i requires 0 <= i < |items| => Canonical(items[i])))
    case Dict(entries) => Dict(map k | k in entries :: Canonical(entries[k]))
    case _ => v
  }

  predicate PyEqual(a: Value, b: Value) {
    Canonical(a) == Canonical(b)
  }

  predicate PyIn(v: Value, values: seq<Value>) {
    exists i :: 0 <= i < |values| && PyEqual(v, values[i])
  }

  predicate Truthy(v: Value) {
    match v
    case Null => false
    case Bool(b) => b
    case Int(n) => n != 0
    case Float(x) => x != 0.0
    case Str(s) => s != ""
    case List(items) => items != []
    case Dict(entries) => entries != map[]
  }

  /** Python's int() on a float drops the fraction. */
  function Truncate(x: real): int {
    if x >= 0.0 then x.Floor else -((-x).Floor)
  }

  function ToInt(lib: Library, v: Value): Result<int, Error> {
    match v
    case Bool(b) => Ok(if b then 1 else 0)
    case Int(n) => Ok(n)
    case Float(x) => Ok(Truncate(x))
    case Str(s) => (match lib.parseInt(s) case Some(n) => Ok(n) case None => Err(TypeOrValue))
    case _ => Err(TypeOrValue)
  }

  function ToFloat(lib: Library, v: Value): Result<real, Error> {
    match v
    case Str(s) => (match lib.parseFloat(s) case Some(x) => Ok(x) case None => Err(TypeOrValue))
    case _ => (match Number(v) case Some(x) => Ok(x) case None => Err(TypeOrValue))
  }

  function ToKey(v: Value): Result<Key, Error> {
    match v
    case Null => Ok(NullKey)
    case Str(s) => Ok(StrKey(s))
    case _ => (match Number(v) case Some(x) => Ok(NumKey(x)) case None => Err(TypeOrValue))
  }

  function FromKey(k: Key): Value {
    match k
    case StrKey(s) => Str(s)
    case NumKey(x) => Float(x)
    case NullKey => Null
  }

  /** One element of a sequence given to dict(): anything that yields exactly two values. */
  function ToPair(lib: Library, v: Value): Result<(Key, Value), Error> {
    match v
    case List(items) =>
      if |items| != 2 then Err(TypeOrValue) else
        var k :- ToKey(items[0]);
        Ok((k, items[1]))
    case Str(s) => if |s| != 2 then Err(TypeOrValue) else Ok((StrKey([s[0]]), Str([s[1]])))
    case Dict(entries) =>
      if |entries| != 2 then Err(TypeOrValue) else
        var (k0, k1) := lib.twoKeys(entries);
        Ok((k0, FromKey(k1)))
    case _ => Err(TypeOrValue)
  }

  function PairsToDict(lib: Library, items: seq<Value>): Result<Entries, Error> {
    if items == [] then Ok(map[]) else
      var rest :- PairsToDict(lib, items[..|items| - 1]);
      var (k, v) :- ToPair(lib, items[|items| - 1]);
      Ok(rest[k := v])
  }

  /** Python's dict(value). */
  function ToDict(lib: Library, v: Value): Result<Entries, Error> {
    match v
    case Dict(entries) => Ok(entries)
    case List(items) => PairsToDict(lib, items)
    case Str(s) => if s == "" then Ok(map[]) else Err(TypeOrValue)
    case _ => Err(TypeOrValue)
  }

  /** What the bounds are compared with: the length of a string or list, the value of a number;
      a dictionary cannot be compared. */
  function Measure(v: Value): Result<real, Error> {
    match v
    case Str(s) => Ok(|s| as real)
    case List(items) => Ok(|items| as real)
    case _ => (match Number(v) case Some(x) => Ok(x) case None => Err(TypeOrValue))
  }
}

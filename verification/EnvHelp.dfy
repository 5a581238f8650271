/** Expansion of $NAME in plugin environment settings: what the loops compute. */
module EnvHelp {

  datatype CharClasses = CharClasses(alpha: char -> bool, digit: char -> bool) {
    predicate IsName(c: char) {
      alpha(c) || digit(c) || c == '_'
    }
  }

  /** Any classification of characters, such as Unicode's, in which neither `$` nor the backslash
      is a letter or digit. */
  type Alphabet = a: CharClasses | !a.IsName('$') && !a.IsName('\\') witness CharClasses(c => false, c => false)

  type Environment = map<string, string>

  /** Python's s.split("$"). */
  function Split(s: string): (parts: seq<string>)
    ensures parts != []
  {
    if s == "" then [""] else
      var rest := Split(s[1..]);
      if s[0] == '$' then [""] + rest else [[s[0]] + rest[0]] + rest[1..]
  }

  /** Python's s.replace(old, new). */
  function Replace(s: string, name: string, value: string): string
    requires name != ""
  {
    if |s| < |name| then s
    else if s[..|name|] == name then value + Replace(s[|name|..], name, value)
    else [s[0]] + Replace(s[1..], name, value)
  }

  /** env.get(name, "") */
  function Get(env: Environment, name: string): string {
    if name in env then env[name] else ""
  }

  predicate EndsWithBackslash(s: string) {
    s != "" && s[|s| - 1] == '\\'
  }

  /** is_string_environment_variable */
  predicate StartsName(a: Alphabet, s: string) {
    s != "" && a.alpha(s[0])
  }

  /** The longest prefix of name characters. */
  function NameOf(a: Alphabet, s: string): string {
    if s != "" && a.IsName(s[0]) then [s[0]] + NameOf(a, s[1..]) else ""
  }

  /** What one part after the first one adds to the text expanded so far. */
  function Added(a: Alphabet, env: Environment, acc: string, part: string): string {
    if EndsWithBackslash(acc) then "$" + part
    else if StartsName(a, part) then Replace(part, NameOf(a, part), Get(env, NameOf(a, part)))
    else "$" + part
  }

  function ExpandParts(a: Alphabet, env: Environment, acc: string, parts: seq<string>): string
    decreases |parts|
  {
    if parts == [] then acc else ExpandParts(a, env, acc + Added(a, env, acc, parts[0]), parts[1..])
  }

  /** expand_string_with_environment_var */
  function Expand(a: Alphabet, env: Environment, s: string): string {
    ExpandParts(a, env, Split(s)[0], Split(s)[1..])
  }

  /** The two ways in which string_contains_environment_var returns True. */
  predicate FirstPartFires(a: Alphabet, parts: seq<string>) {
    |parts| > 1 && StartsName(a, parts[0]) && !EndsWithBackslash(parts[0])
  }

  predicate PartFires(a: Alphabet, parts: seq<string>, i: nat)
    requires 0 < i < |parts|
  {
    StartsName(a, parts[i]) && !EndsWithBackslash(parts[i - 1])
  }

  predicate Contains(a: Alphabet, s: string) {
    FirstPartFires(a, Split(s)) || exists i | 0 < i < |Split(s)| :: PartFires(a, Split(s), i)
  }

  method StringContainsEnvironmentVar(a: Alphabet, s: string) returns (r: bool)
    ensures r == Contains(a, s)
  {
    var parts := Split(s);
    if |parts| == 1 {
      return false;
    }
    for index := 0 to |parts|
      invariant forall i | 0 < i < index :: !PartFires(a, parts, i)
      invariant index > 0 ==> !FirstPartFires(a, parts)
    {
      var part := parts[index];
      if |part| == 0 || !a.alpha(part[0]) {
        continue;
      }
      if index > 0 {
        if EndsWithBackslash(parts[index - 1]) {
          continue;
        } else {
          assert PartFires(a, parts, index);
          return true;
        }
      } else if !EndsWithBackslash(part) && index + 1 != |parts| {
        return true;
      }
    }
    return false;
  }

  method GetEnvironmentVarName(a: Alphabet, s: string) returns (key: string)
    ensures key == NameOf(a, s)
    ensures key <= s
    ensures forall i | 0 <= i < |key| :: a.alpha(key[i]) || a.digit(key[i]) || key[i] == '_'
    ensures |key| < |s| ==> !a.alpha(s[|key|]) && !a.digit(s[|key|]) && s[|key|] != '_'
  {
    key := "";
    for i := 0 to |s|
      invariant key + NameOf(a, s[i..]) == NameOf(a, s)
      invariant key == s[..i]
      invariant forall j | 0 <= j < i :: a.alpha(key[j]) || a.digit(key[j]) || key[j] == '_'
    {
      if a.IsName(s[i]) {
        assert NameOf(a, s[i..]) == [s[i]] + NameOf(a, s[i + 1..]);
        assert key + ([s[i]] + NameOf(a, s[i + 1..])) == (key + [s[i]]) + NameOf(a, s[i + 1..]);
        key := key + [s[i]];
      } else {
        return;
      }
    }
  }

  method ExpandString(a: Alphabet, env: Environment, s: string) returns (expandedValue: string)
    ensures expandedValue == Expand(a, env, s)
  {
    var parts := Split(s);
    expandedValue := "";
    for index := 0 to |parts|
      invariant index == 0 ==> expandedValue == ""
      invariant index > 0 ==> ExpandParts(a, env, expandedValue, parts[index..]) == Expand(a, env, s)
    {
      var part := parts[index];
      ghost var rest := parts[index..];
      assert rest[0] == part && rest[1..] == parts[index + 1..];
      if index == 0 {
        if |part| == 0 {
          continue;
        }
        assert expandedValue + part == part;
        expandedValue := expandedValue + part;
      } else if EndsWithBackslash(expandedValue) {
        expandedValue := expandedValue + ("$" + part);
      } else if StartsName(a, part) {
        var key := GetEnvironmentVarName(a, part);
        expandedValue := expandedValue + Replace(part, key, Get(env, key));
      } else {
        expandedValue := expandedValue + ("$" + part);
      }
    }
  }
}

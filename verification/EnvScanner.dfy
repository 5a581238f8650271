/** The split-and-replace expansion against a plain scanner, and what it leaves unchanged. */
module EnvScanner {
  import opened EnvHelp

  /** A single pass from left to right: an unescaped `$` with the longest name after it is replaced
      by the value of that name, and every other character is kept. */
  function Scan(a: Alphabet, env: Environment, s: string, escaped: bool): string
    decreases |s|
  {
    if s == "" then ""
    else if s[0] == '$' && !escaped && StartsName(a, s[1..]) then
      NameIsPrefix(a, s[1..]);
      Get(env, NameOf(a, s[1..])) + Scan(a, env, s[1 + |NameOf(a, s[1..])|..], false)
    else [s[0]] + Scan(a, env, s[1..], s[0] == '\\')
  }

  lemma {:induction false} NameIsPrefix(a: Alphabet, s: string)
    ensures NameOf(a, s) <= s
    ensures forall i | 0 <= i < |NameOf(a, s)| :: a.IsName(s[i])
    ensures |NameOf(a, s)| < |s| ==> !a.IsName(s[|NameOf(a, s)|])
    ensures StartsName(a, s) ==> NameOf(a, s) != ""
  {
    if s != "" && a.IsName(s[0]) {
      NameIsPrefix(a, s[1..]);
    }
  }

  function Joined(parts: seq<string>): string {
    if parts == [] then "" else "$" + parts[0] + Joined(parts[1..])
  }

  predicate DollarFree(s: string) {
    '$' !in s
  }

  ghost predicate AllDollarFree(parts: seq<string>) {
    forall i | 0 <= i < |parts| :: DollarFree(parts[i])
  }

  /** Splitting loses nothing: the parts are free of `$` and joining them gives the string back. */
  lemma {:induction false} SplitJoin(s: string)
    ensures AllDollarFree(Split(s))
    ensures Split(s)[0] + Joined(Split(s)[1..]) == s
  {
    if s != "" {
      SplitJoin(s[1..]);
      var parts, rest := Split(s), Split(s[1..]);
      if s[0] == '$' {
        assert parts[1..] == rest;
        assert Joined(rest) == "$" + rest[0] + Joined(rest[1..]);
        assert parts[0] + Joined(parts[1..]) == [s[0]] + s[1..];
      } else {
        assert parts[1..] == rest[1..];
        assert parts[0] + Joined(parts[1..]) == [s[0]] + s[1..];
      }
    }
  }

  // ----- the scanner, part by part -----

  lemma {:induction false} ScanText(a: Alphabet, env: Environment, text: string, rest: string, escaped: bool)
    requires DollarFree(text)
    ensures Scan(a, env, text + rest, escaped)
            == text + Scan(a, env, rest, if text == "" then escaped else EndsWithBackslash(text))
  {
    if text == "" {
      assert text + rest == rest;
    } else {
      assert (text + rest)[0] == text[0] && (text + rest)[1..] == text[1..] + rest;
      ScanText(a, env, text[1..], rest, text[0] == '\\');
    }
  }

  lemma {:induction false} NameStopsAtDollar(a: Alphabet, part: string, rest: string)
    requires rest == "" || rest[0] == '$'
    ensures NameOf(a, part + rest) == NameOf(a, part)
  {
    if part == "" {
      assert part + rest == rest;
    } else {
      assert (part + rest)[0] == part[0] && (part + rest)[1..] == part[1..] + rest;
      NameStopsAtDollar(a, part[1..], rest);
    }
  }

  lemma ScanKeptPart(a: Alphabet, env: Environment, part: string, rest: string, escaped: bool)
    requires DollarFree(part) && (rest == "" || rest[0] == '$')
    requires escaped || !StartsName(a, part)
    ensures Scan(a, env, "$" + part + rest, escaped) == "$" + part + Scan(a, env, rest, EndsWithBackslash(part))
  {
    var s := "$" + part + rest;
    assert s[0] == '$' && s[1..] == part + rest;
    assert StartsName(a, part + rest) ==> part != "" && (part + rest)[0] == part[0];
    ScanText(a, env, part, rest, false);
    assert ["$"[0]] + (part + Scan(a, env, rest, EndsWithBackslash(part)))
        == "$" + part + Scan(a, env, rest, EndsWithBackslash(part));
  }

  lemma ScanVariable(a: Alphabet, env: Environment, part: string, rest: string)
    requires (rest == "" || rest[0] == '$') && StartsName(a, part)
    ensures NameOf(a, part) <= part
    ensures Scan(a, env, "$" + part + rest, false)
        == Get(env, NameOf(a, part)) + Scan(a, env, part[|NameOf(a, part)|..] + rest, false)
  {
    var s, name := "$" + part + rest, NameOf(a, part);
    NameIsPrefix(a, part);
    NameStopsAtDollar(a, part, rest);
    assert s[0] == '$' && s[1..] == part + rest;
    assert StartsName(a, s[1..]);
    assert s[1 + |name|..] == part[|name|..] + rest;
  }

  lemma ScanReplacedPart(a: Alphabet, env: Environment, part: string, rest: string)
    requires DollarFree(part) && (rest == "" || rest[0] == '$') && StartsName(a, part)
    ensures NameOf(a, part) <= part
    ensures var name := NameOf(a, part);
            Scan(a, env, "$" + part + rest, false)
            == Get(env, name) + part[|name|..] + Scan(a, env, rest, EndsWithBackslash(part[|name|..]))
  {
    ScanVariable(a, env, part, rest);
    var value, tail := Get(env, NameOf(a, part)), part[|NameOf(a, part)|..];
    assert DollarFree(tail);
    ScanText(a, env, tail, rest, false);
    Associate(value, tail, Scan(a, env, rest, EndsWithBackslash(tail)));
  }

  lemma Associate(x: string, y: string, z: string)
    ensures x + (y + z) == (x + y) + z
  {
  }

  // ----- when the two agree -----

  predicate OccursIn(name: string, s: string) {
    name <= s || (s != "" && OccursIn(name, s[1..]))
  }

  lemma {:induction false} ReplaceAbsent(s: string, name: string, value: string)
    requires name != "" && !OccursIn(name, s)
    ensures Replace(s, name, value) == s
  {
    if |s| >= |name| {
      ReplaceAbsent(s[1..], name, value);
      assert [s[0]] + s[1..] == s;
    }
  }

  /** What follows the name of the variable that `part` starts with, up to the next `$`. */
  function AfterName(a: Alphabet, part: string): string {
    NameIsPrefix(a, part);
    part[|NameOf(a, part)|..]
  }

  /** Another variable follows directly, with nothing in between. */
  predicate Adjoins(a: Alphabet, parts: seq<string>)
    requires parts != []
  {
    AfterName(a, parts[0]) == "" && |parts| > 1 && StartsName(a, parts[1])
  }

  /** The name does not occur again before the next `$`, and the substituted value does not escape a
      variable that follows directly. */
  predicate PlainSubstitution(a: Alphabet, env: Environment, parts: seq<string>)
    requires parts != []
  {
    && !OccursIn(NameOf(a, parts[0]), AfterName(a, parts[0]))
    && (Adjoins(a, parts) ==> !EndsWithBackslash(Get(env, NameOf(a, parts[0]))))
  }

  /** A variable starts here. `prev` is the part before. */
  predicate IsVariable(a: Alphabet, prev: string, part: string) {
    StartsName(a, part) && !EndsWithBackslash(prev)
  }

  /** All substitutions are plain. `prev` is the part before the first of `parts`. */
  predicate Plain(a: Alphabet, env: Environment, prev: string, parts: seq<string>)
    decreases |parts|
  {
    parts == [] ||
    (&& (IsVariable(a, prev, parts[0]) ==> PlainSubstitution(a, env, parts))
     && Plain(a, env, parts[0], parts[1..]))
  }

  lemma ReplaceName(a: Alphabet, part: string, value: string)
    requires StartsName(a, part)
    ensures NameOf(a, part) != ""
    ensures Replace(part, NameOf(a, part), value) == value + Replace(AfterName(a, part), NameOf(a, part), value)
  {
    NameIsPrefix(a, part);
  }

  lemma EndsAfter(x: string, y: string)
    ensures EndsWithBackslash(x + y) == if y == "" then EndsWithBackslash(x) else EndsWithBackslash(y)
  {
    if y == "" {
      assert x + y == x;
    } else {
      assert (x + y)[|x + y| - 1] == y[|y| - 1];
    }
  }

  lemma EndOfPart(a: Alphabet, part: string)
    requires StartsName(a, part)
    ensures EndsWithBackslash(part) == EndsWithBackslash(AfterName(a, part))
  {
    NameIsPrefix(a, part);
    var name, tail := NameOf(a, part), AfterName(a, part);
    assert part == name + tail;
    EndsAfter(name, tail);
    assert !EndsWithBackslash(name);
  }

  /** What a part that is kept, respectively replaced, adds is what the scanner makes of it. */
  lemma KeptIsScan(a: Alphabet, env: Environment, acc: string, prev: string, part: string, rest: string)
    requires DollarFree(part) && (rest == "" || rest[0] == '$')
    requires !IsVariable(a, prev, part) && !IsVariable(a, acc, part)
    ensures Scan(a, env, "$" + part + rest, EndsWithBackslash(prev))
        == Added(a, env, acc, part) + Scan(a, env, rest, EndsWithBackslash(part))
    ensures EndsWithBackslash(acc + Added(a, env, acc, part)) == EndsWithBackslash(part)
  {
    ScanKeptPart(a, env, part, rest, EndsWithBackslash(prev));
    EndsAfter(acc, "$" + part);
    EndsAfter("$", part);
  }

  lemma ReplacedIsScan(a: Alphabet, env: Environment, acc: string, parts: seq<string>)
    requires parts != [] && AllDollarFree(parts)
    requires IsVariable(a, acc, parts[0]) && PlainSubstitution(a, env, parts)
    ensures Scan(a, env, Joined(parts), false)
            == Added(a, env, acc, parts[0]) + Scan(a, env, Joined(parts[1..]), EndsWithBackslash(parts[0]))
    ensures EndsWithBackslash(acc + Added(a, env, acc, parts[0])) == EndsWithBackslash(parts[0])
            || |parts| == 1 || !StartsName(a, parts[1])
  {
    var part, name := parts[0], NameOf(a, parts[0]);
    var value, tail := Get(env, name), AfterName(a, part);
    ReplaceName(a, part, value);
    ReplaceAbsent(tail, name, value);
    ScanReplacedPart(a, env, part, Joined(parts[1..]));
    EndOfPart(a, part);
    EndsAfter(acc, value + tail);
    EndsAfter(value, tail);
    assert value + tail == "" ==> value == "" && tail == "";
  }

  lemma {:induction false} ExpandPartsIsScan(a: Alphabet, env: Environment, acc: string, prev: string,
      parts: seq<string>)
    requires AllDollarFree(parts) && Plain(a, env, prev, parts)
    requires EndsWithBackslash(acc) == EndsWithBackslash(prev) || parts == [] || !StartsName(a, parts[0])
    ensures ExpandParts(a, env, acc, parts) == acc + Scan(a, env, Joined(parts), EndsWithBackslash(prev))
    decreases |parts|
  {
    if parts == [] {
      assert acc + "" == acc;
    } else {
      var part, tail := parts[0], parts[1..];
      var rest, added := Joined(tail), Added(a, env, acc, part);
      assert DollarFree(parts[0]);
      if IsVariable(a, prev, part) {
        ReplacedIsScan(a, env, acc, parts);
      } else {
        KeptIsScan(a, env, acc, prev, part, rest);
      }
      assert AllDollarFree(tail) by {
        assert forall i | 0 <= i < |tail| :: tail[i] == parts[i + 1];
      }
      ExpandPartsIsScan(a, env, acc + added, part, tail);
      Associate(acc, added, Scan(a, env, rest, EndsWithBackslash(part)));
    }
  }

  /** Expansion refines the scanner on strings all of whose substitutions are plain. */
  lemma ExpandIsScan(a: Alphabet, env: Environment, s: string)
    requires Plain(a, env, Split(s)[0], Split(s)[1..])
    ensures Expand(a, env, s) == Scan(a, env, s, false)
  {
    var parts := Split(s);
    SplitJoin(s);
    assert AllDollarFree(parts[1..]) by {
      assert forall i | 0 <= i < |parts[1..]| :: parts[1..][i] == parts[i + 1];
    }
    assert DollarFree(parts[0]);
    ExpandPartsIsScan(a, env, parts[0], parts[0], parts[1..]);
    ScanText(a, env, parts[0], Joined(parts[1..]), false);
  }

  // ----- the side conditions are needed -----

  /** A name that occurs again later in its part is replaced there as well, although it is text. */
  lemma RecurringNameIsReplaced(a: Alphabet)
    requires a.alpha('A') && !a.IsName(':')
    ensures Expand(a, map["A" := "x"], "$A:A") == "x:x"
    ensures Scan(a, map["A" := "x"], "$A:A", false) == "x:A"
  {
    var env, s, part := map["A" := "x"], "$A:A", "A:A";
    SplitOnly(part);
    assert s[1..] == part && Split(s) == ["", part];
    assert part[1..] == ":A" && ":A"[1..] == "A";
    assert NameOf(a, part) == "A";
    assert part[..1] == "A" && part[1..] == ":A" && ":A"[..1] != "A" && "A"[..1] == "A" && "A"[1..] == "";
    assert Replace("A", "A", "x") == "x" + Replace("", "A", "x") == "x";
    assert Replace(":A", "A", "x") == [':'] + Replace("A", "A", "x") == ":x";
    assert Replace(part, "A", "x") == "x" + Replace(":A", "A", "x") == "x:x";
    assert Expand(a, env, s) == ExpandParts(a, env, "", [part]) == ExpandParts(a, env, "" + "x:x", []);
    ScanText(a, env, ":A", "", false);
    assert s[2..] == ":A" && ":A" + "" == ":A";
  }

  lemma ScanTwoVariables(a: Alphabet, env: Environment)
    requires a.alpha('A') && a.alpha('B')
    ensures Scan(a, env, "$A$B", false) == Get(env, "A") + Get(env, "B")
  {
    assert "A" + "$B" == "A$B" && "$A$B"[1..] == "A$B" && "$A$B"[2..] == "$B" && "$B"[1..] == "B" && "$B"[2..] == "";
    NameStopsAtDollar(a, "A", "$B");
    assert "A"[1..] == "" && "B"[1..] == "";
    assert NameOf(a, "A$B") == NameOf(a, "A") == "A" && NameOf(a, "B") == "B";
    assert Scan(a, env, "$B", false) == Get(env, "B") + Scan(a, env, "", false) == Get(env, "B");
  }

  /** A value that ends in a backslash escapes the variable after it, where the scanner goes on with the
      value of that variable. */
  lemma BackslashValueEscapes(a: Alphabet, env: Environment)
    requires a.alpha('A') && a.alpha('B') && Get(env, "A") == "\\"
    ensures Expand(a, env, "$A$B") == "\\$B"
    ensures Scan(a, env, "$A$B", false) == "\\" + Get(env, "B")
  {
    var parts := ["", "A", "B"];
    SplitOnly("A");
    SplitOnly("B");
    assert "A$B"[1..] == "$B" && "$B"[1..] == "B" && "$A$B"[1..] == "A$B";
    assert Split("$B") == ["", "B"];
    assert Split("A$B") == ["A", "B"] by {
      assert ['A'] + "" == "A" && ["", "B"][1..] == ["B"];
    }
    assert Split("$A$B") == parts;
    assert parts[1..] == ["A", "B"] && parts[1..][1..] == ["B"] && parts[1..][1..][1..] == [];
    assert NameOf(a, "A") == "A";
    assert Replace("A", "A", "\\") == "\\" + Replace("", "A", "\\") == "\\";
    assert Added(a, env, "", "A") == "\\" && "" + "\\" == "\\";
    assert Added(a, env, "\\", "B") == "$B" && "\\" + "$B" == "\\$B";
    assert ExpandParts(a, env, "", parts[1..]) == ExpandParts(a, env, "\\", ["B"]) == ExpandParts(a, env, "\\$B", []);
    ScanTwoVariables(a, env);
  }

  lemma {:induction false} SplitOnly(s: string)
    requires DollarFree(s)
    ensures Split(s) == [s]
  {
    if s != "" {
      SplitOnly(s[1..]);
      assert [s[0]] + s[1..] == s && [s[1..]][1..] == [];
    }
  }
}

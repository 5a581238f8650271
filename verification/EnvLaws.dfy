/** Strings that expansion leaves alone: exactly which they are, what the detector says about them,
    and why a second expansion changes nothing. */
module EnvLaws {
  import opened EnvHelp
  import opened EnvScanner

  /** A `$` at position i does not start a variable: it is escaped, or no letter follows. */
  predicate HarmlessAt(a: Alphabet, t: string, i: nat)
    requires i < |t|
  {
    t[i] == '$' ==> (i > 0 && t[i - 1] == '\\') || i + 1 == |t| || !a.alpha(t[i + 1])
  }

  /** No variable occurs in t. */
  predicate Inert(a: Alphabet, t: string) {
    forall i | 0 <= i < |t| :: HarmlessAt(a, t, i)
  }

  // ----- the same, character by character and part by part -----

  predicate InertFrom(a: Alphabet, t: string, escaped: bool)
    decreases |t|
  {
    t == "" || (!(t[0] == '$' && !escaped && StartsName(a, t[1..])) && InertFrom(a, t[1..], t[0] == '\\'))
  }

  predicate InertParts(a: Alphabet, prev: string, parts: seq<string>)
    decreases |parts|
  {
    parts == [] || (!(StartsName(a, parts[0]) && !EndsWithBackslash(prev)) && InertParts(a, parts[0], parts[1..]))
  }

  lemma {:induction false} InertFromMeaning(a: Alphabet, t: string, escaped: bool)
    ensures InertFrom(a, t, escaped) <==> forall i | 0 <= i < |t| :: HarmlessAt(a, t, i) || (i == 0 && escaped)
    decreases |t|
  {
    if t != "" {
      var u := t[1..];
      InertFromMeaning(a, u, t[0] == '\\');
      forall i | 0 <= i < |u|
        ensures HarmlessAt(a, t, i + 1) <==> HarmlessAt(a, u, i) || (i == 0 && t[0] == '\\')
      {
        assert u[i] == t[i + 1];
      }
      if InertFrom(a, t, escaped) {
        forall i | 0 <= i < |t| ensures HarmlessAt(a, t, i) || (i == 0 && escaped) {
          if i > 0 {
            assert HarmlessAt(a, u, i - 1) || (i - 1 == 0 && t[0] == '\\');
          }
        }
      }
      if forall i | 0 <= i < |t| :: HarmlessAt(a, t, i) || (i == 0 && escaped) {
        forall i | 0 <= i < |u| ensures HarmlessAt(a, u, i) || (i == 0 && t[0] == '\\') {
          assert HarmlessAt(a, t, i + 1);
        }
        assert HarmlessAt(a, t, 0) || escaped;
      }
    }
  }

  lemma {:induction false} InertText(a: Alphabet, text: string, rest: string, escaped: bool)
    requires DollarFree(text)
    ensures InertFrom(a, text + rest, escaped)
        <==> InertFrom(a, rest, if text == "" then escaped else EndsWithBackslash(text))
  {
    if text == "" {
      assert text + rest == rest;
    } else {
      assert (text + rest)[0] == text[0] && (text + rest)[1..] == text[1..] + rest;
      InertText(a, text[1..], rest, text[0] == '\\');
    }
  }

  lemma TailDollarFree(parts: seq<string>)
    requires AllDollarFree(parts) && parts != []
    ensures DollarFree(parts[0]) && AllDollarFree(parts[1..])
  {
    assert forall i | 0 <= i < |parts[1..]| :: parts[1..][i] == parts[i + 1];
  }

  lemma {:induction false} InertJoined(a: Alphabet, prev: string, parts: seq<string>)
    requires AllDollarFree(parts)
    ensures InertFrom(a, Joined(parts), EndsWithBackslash(prev)) <==> InertParts(a, prev, parts)
    decreases |parts|
  {
    if parts != [] {
      var part, rest := parts[0], Joined(parts[1..]);
      TailDollarFree(parts);
      InertJoined(a, part, parts[1..]);
      var s := "$" + part + rest;
      assert s[0] == '$' && s[1..] == part + rest;
      assert StartsName(a, part + rest) <==> StartsName(a, part) by {
        if part == "" {
          assert part + rest == rest;
        } else {
          assert (part + rest)[0] == part[0];
        }
      }
      InertText(a, part, rest, false);
    }
  }

  lemma InertIsInertParts(a: Alphabet, s: string)
    ensures Inert(a, s) <==> InertParts(a, Split(s)[0], Split(s)[1..])
  {
    var parts := Split(s);
    SplitJoin(s);
    TailDollarFree(parts);
    InertFromMeaning(a, s, false);
    InertText(a, parts[0], Joined(parts[1..]), false);
    InertJoined(a, parts[0], parts[1..]);
  }

  // ----- expansion leaves exactly the inert strings alone -----

  lemma {:induction false} InertPartsStay(a: Alphabet, env: Environment, acc: string, prev: string, parts: seq<string>)
    requires InertParts(a, prev, parts) && EndsWithBackslash(acc) == EndsWithBackslash(prev)
    ensures ExpandParts(a, env, acc, parts) == acc + Joined(parts)
    decreases |parts|
  {
    if parts == [] {
      assert acc + "" == acc;
    } else {
      InertPartsStay(a, env, acc + ("$" + parts[0]), parts[0], parts[1..]);
      Associate(acc, "$" + parts[0], Joined(parts[1..]));
    }
  }

  lemma {:induction false} ReplaceByNothing(s: string, name: string)
    requires name != ""
    ensures |Replace(s, name, "")| <= |s|
    ensures name <= s ==> |Replace(s, name, "")| < |s|
  {
    if |s| >= |name| {
      if s[..|name|] == name {
        ReplaceByNothing(s[|name|..], name);
      } else {
        ReplaceByNothing(s[1..], name);
      }
    }
  }

  lemma {:induction false} EmptyEnvironmentShrinks(a: Alphabet, acc: string, prev: string, parts: seq<string>)
    ensures |ExpandParts(a, map[], acc, parts)| <= |acc| + |Joined(parts)|
    ensures EndsWithBackslash(acc) == EndsWithBackslash(prev) && !InertParts(a, prev, parts) ==>
              |ExpandParts(a, map[], acc, parts)| < |acc| + |Joined(parts)|
    decreases |parts|
  {
    if parts != [] {
      var part, added := parts[0], Added(a, map[], acc, parts[0]);
      if StartsName(a, part) {
        NameIsPrefix(a, part);
        ReplaceByNothing(part, NameOf(a, part));
      }
      EmptyEnvironmentShrinks(a, acc + added, part, parts[1..]);
    }
  }

  /** Expansion changes nothing in any environment exactly when no variable occurs in the string. */
  lemma FixedExactlyWhenInert(a: Alphabet, s: string)
    ensures (forall env :: Expand(a, env, s) == s) <==> Inert(a, s)
  {
    var parts := Split(s);
    SplitJoin(s);
    InertIsInertParts(a, s);
    if Inert(a, s) {
      forall env ensures Expand(a, env, s) == s {
        InertPartsStay(a, env, parts[0], parts[0], parts[1..]);
      }
    } else {
      EmptyEnvironmentShrinks(a, parts[0], parts[0], parts[1..]);
      assert Expand(a, map[], s) != s;
    }
  }

  // ----- the detector -----

  lemma {:induction false} FiringParts(a: Alphabet, parts: seq<string>)
    requires parts != []
    ensures InertParts(a, parts[0], parts[1..]) <==> forall i | 0 < i < |parts| :: !PartFires(a, parts, i)
    decreases |parts|
  {
    if |parts| > 1 {
      var tail := parts[1..];
      FiringParts(a, tail);
      forall i | 0 < i < |tail| ensures PartFires(a, tail, i) <==> PartFires(a, parts, i + 1) {
      }
      assert PartFires(a, parts, 1) <==> StartsName(a, tail[0]) && !EndsWithBackslash(parts[0]);
      if forall i | 0 < i < |parts| :: !PartFires(a, parts, i) {
        forall i | 0 < i < |tail| ensures !PartFires(a, tail, i) {
          assert !PartFires(a, parts, i + 1);
        }
      }
      if InertParts(a, parts[0], tail) {
        forall i | 0 < i < |parts| ensures !PartFires(a, parts, i) {
          if i > 1 {
            assert !PartFires(a, tail, i - 1);
          }
        }
      }
    }
  }

  /** The text before the first `$` is not empty, starts with a letter and does not escape that `$`. */
  ghost predicate LettersFirst(a: Alphabet, s: string) {
    exists k :: 0 < k < |s| && s[k] == '$' && '$' !in s[..k] && a.alpha(s[0]) && s[k - 1] != '\\'
  }

  lemma DollarBefore(s: string, n: nat, k: nat)
    requires n < k <= |s| && s[n] == '$'
    ensures '$' in s[..k]
  {
    assert s[..k][n] == '$';
  }

  lemma FirstPartMeaning(a: Alphabet, s: string)
    ensures FirstPartFires(a, Split(s)) <==> LettersFirst(a, s)
  {
    var parts := Split(s);
    SplitJoin(s);
    var first := parts[0];
    assert DollarFree(first);
    assert s[..|first|] == first;
    assert forall i | 0 <= i < |first| :: s[i] == first[i];
    if |parts| > 1 {
      assert parts[1..] != [] && Joined(parts[1..])[0] == '$' && s[|first|] == '$';
      forall k: nat | |first| < k <= |s| ensures '$' in s[..k] {
        DollarBefore(s, |first|, k);
      }
    } else {
      assert s == first + "" == first;
    }
  }

  /** What the detector decides: a variable occurs, or the text before the first `$` starts with a
      letter and does not escape that `$`. */
  lemma DetectorMeaning(a: Alphabet, s: string)
    ensures Contains(a, s) <==> !Inert(a, s) || LettersFirst(a, s)
  {
    InertIsInertParts(a, s);
    FiringParts(a, Split(s));
    FirstPartMeaning(a, s);
  }

  /** The detector is safe: a string it calls free of variables is never changed. */
  lemma DetectorAgreesWithExpansion(a: Alphabet, env: Environment, s: string)
    requires !Contains(a, s)
    ensures Expand(a, env, s) == s
  {
    InertIsInertParts(a, s);
    FiringParts(a, Split(s));
    FixedExactlyWhenInert(a, s);
  }

  /** Some environment changes the string. */
  ghost predicate Expandable(a: Alphabet, s: string) {
    exists env :: Expand(a, env, s) != s
  }

  /** The detector is meant to say whether expansion can change a string. It does so exactly when the
      test on the text before the first `$` fails, or the test on a later part succeeds as well. */
  lemma DetectorIsRightExactly(a: Alphabet, s: string)
    ensures (Contains(a, s) <==> Expandable(a, s)) <==>
              !FirstPartFires(a, Split(s)) || exists i | 0 < i < |Split(s)| :: PartFires(a, Split(s), i)
  {
    FixedExactlyWhenInert(a, s);
    InertIsInertParts(a, s);
    FiringParts(a, Split(s));
    assert Expandable(a, s) <==> !Inert(a, s);
  }

  /** So "M$." is reported although no variable occurs in it. */
  lemma DetectorFalseAlarm(a: Alphabet)
    requires a.alpha('M') && !a.alpha('.')
    ensures Contains(a, "M$.") && forall env :: Expand(a, env, "M$.") == "M$."
  {
    var s := "M$.";
    assert s[1..] == "$." && s[1..][1..] == "." && s[1..][1..][1..] == "";
    assert Split("") == [""];
    assert Split(".") == ["."] by {
      assert "."[1..] == "" && ['.'] + "" == ".";
    }
    assert Split("$.") == ["", "."];
    assert Split(s) == ["M", "."] by {
      assert ['M'] + "" == "M" && ["", "."][1..] == ["."];
    }
    assert Inert(a, s);
    FixedExactlyWhenInert(a, s);
  }

  // ----- expanding twice -----

  predicate DoubleAt(s: string, i: nat)
    requires i + 1 < |s|
  {
    s[i] == '$' && s[i + 1] == '$'
  }

  predicate NoDouble(s: string) {
    forall i | 0 <= i < |s| - 1 :: !DoubleAt(s, i)
  }

  predicate OnlyLastEmpty(parts: seq<string>) {
    forall i | 0 <= i < |parts| - 1 :: parts[i] != ""
  }

  lemma EmptyPartDoubles(before: string, tail: seq<string>)
    requires tail != []
    ensures !NoDouble(before + ("$" + "" + Joined(tail)))
  {
    var s := before + ("$" + "" + Joined(tail));
    assert s[|before|] == '$' && s[|before| + 1] == Joined(tail)[0] == '$';
    assert DoubleAt(s, |before|);
  }

  lemma {:induction false} NoDoubleParts(before: string, parts: seq<string>)
    requires NoDouble(before + Joined(parts))
    ensures OnlyLastEmpty(parts)
    decreases |parts|
  {
    if |parts| > 1 {
      var s, tail := before + Joined(parts), parts[1..];
      assert before + ("$" + parts[0]) + Joined(tail) == s;
      NoDoubleParts(before + ("$" + parts[0]), tail);
      if parts[0] == "" {
        EmptyPartDoubles(before, tail);
      }
      forall i | 0 <= i < |parts| - 1 ensures parts[i] != "" {
        if i > 0 {
          assert tail[i - 1] != "";
        }
      }
    }
  }

  predicate DollarFreeValues(env: Environment) {
    forall k | k in env :: DollarFree(env[k])
  }

  lemma {:induction false} ReplaceDollarFree(s: string, name: string, value: string)
    requires name != "" && DollarFree(s) && DollarFree(value)
    ensures DollarFree(Replace(s, name, value))
  {
    if |s| >= |name| {
      if s[..|name|] == name {
        ReplaceDollarFree(s[|name|..], name, value);
      } else {
        ReplaceDollarFree(s[1..], name, value);
      }
    }
  }

  predicate EndsWithDollar(s: string) {
    s != "" && s[|s| - 1] == '$'
  }

  lemma InertExtended(a: Alphabet, acc: string, more: string)
    requires Inert(a, acc) && DollarFree(more) && !EndsWithDollar(acc)
    ensures Inert(a, acc + more)
    ensures EndsWithBackslash(acc) || !StartsName(a, more) ==> Inert(a, acc + ("$" + more))
  {
    forall i | 0 <= i < |acc + more| ensures HarmlessAt(a, acc + more, i) {
      if i < |acc| {
        assert HarmlessAt(a, acc, i);
      }
    }
    if EndsWithBackslash(acc) || !StartsName(a, more) {
      var t := acc + ("$" + more);
      forall i | 0 <= i < |t| ensures HarmlessAt(a, t, i) {
        if i < |acc| {
          assert HarmlessAt(a, acc, i);
        } else if i > |acc| {
          assert t[i] == more[i - |acc| - 1];
        } else {
          assert more != "" ==> t[i + 1] == more[0];
        }
      }
    }
  }

  lemma {:induction false} ExpansionIsInert(a: Alphabet, env: Environment, acc: string, parts: seq<string>)
    requires DollarFreeValues(env) && AllDollarFree(parts) && OnlyLastEmpty(parts)
    requires Inert(a, acc) && !EndsWithDollar(acc)
    ensures Inert(a, ExpandParts(a, env, acc, parts))
    decreases |parts|
  {
    if parts != [] {
      var part, added, tail := parts[0], Added(a, env, acc, parts[0]), parts[1..];
      TailDollarFree(parts);
      assert OnlyLastEmpty(tail) by {
        assert forall i | 0 <= i < |tail| :: tail[i] == parts[i + 1];
      }
      if !EndsWithBackslash(acc) && StartsName(a, part) {
        ReplaceDollarFree(part, NameOf(a, part), Get(env, NameOf(a, part)));
        InertExtended(a, acc, added);
        ExpansionIsInert(a, env, acc + added, tail);
      } else {
        InertExtended(a, acc, part);
        if tail == [] {
          assert ExpandParts(a, env, acc, parts) == acc + added;
        } else {
          assert parts[0] != "";
          ExpansionIsInert(a, env, acc + added, tail);
        }
      }
    }
  }

  /** Expanding twice: if the string has no adjacent `$$` and no value contains `$`, the expanded
      string contains no variable, so expanding it again, in any environment, returns it unchanged. */
  lemma SecondExpansionIsNoOp(a: Alphabet, env: Environment, env': Environment, s: string)
    requires NoDouble(s) && DollarFreeValues(env)
    ensures Inert(a, Expand(a, env, s))
    ensures Expand(a, env', Expand(a, env, s)) == Expand(a, env, s)
  {
    var parts := Split(s);
    SplitJoin(s);
    TailDollarFree(parts);
    NoDoubleParts(parts[0], parts[1..]);
    forall i | 0 <= i < |parts[0]| ensures HarmlessAt(a, parts[0], i) {
      assert parts[0][i] in parts[0];
    }
    ExpansionIsInert(a, env, parts[0], parts[1..]);
    FixedExactlyWhenInert(a, Expand(a, env, s));
  }
}

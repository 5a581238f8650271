/** Exactly which strings are expanded as the plain scanner would, whatever the environment holds. */
module EnvExactness {
  import opened EnvHelp
  import opened EnvScanner

  /** The name of some variable occurs again before the next `$`. `prev` is the part before `parts`. */
  predicate Recurs(a: Alphabet, prev: string, parts: seq<string>)
    decreases |parts|
  {
    parts != [] &&
    (|| (IsVariable(a, prev, parts[0]) && OccursIn(NameOf(a, parts[0]), AfterName(a, parts[0])))
     || Recurs(a, parts[0], parts[1..]))
  }

  /** Some variable is followed directly by another one. */
  predicate Adjacent(a: Alphabet, prev: string, parts: seq<string>)
    decreases |parts|
  {
    parts != [] && ((IsVariable(a, prev, parts[0]) && Adjoins(a, parts)) || Adjacent(a, parts[0], parts[1..]))
  }

  lemma {:induction false} SeparateIsPlain(a: Alphabet, env: Environment, prev: string, parts: seq<string>)
    requires !Recurs(a, prev, parts) && !Adjacent(a, prev, parts)
    ensures Plain(a, env, prev, parts)
    decreases |parts|
  {
    if parts != [] {
      SeparateIsPlain(a, env, parts[0], parts[1..]);
    }
  }

  // ----- otherwise expansion keeps a `$` or inserts a value too often -----

  function Dollars(s: string): nat {
    multiset(s)['$']
  }

  lemma DollarsOfConcat(x: string, y: string)
    ensures Dollars(x + y) == Dollars(x) + Dollars(y)
  {
  }

  lemma {:induction false} OccurrenceFits(name: string, s: string)
    requires OccursIn(name, s)
    ensures |name| <= |s|
  {
    if !(name <= s) {
      OccurrenceFits(name, s[1..]);
    }
  }

  /** Replacing a name that occurs puts in at least one value. */
  lemma {:induction false} ReplaceInserts(s: string, name: string, value: string)
    requires name != ""
    ensures OccursIn(name, s) ==> Dollars(Replace(s, name, value)) >= Dollars(value)
  {
    if OccursIn(name, s) {
      OccurrenceFits(name, s);
      if s[..|name|] == name {
        DollarsOfConcat(value, Replace(s[|name|..], name, value));
      } else {
        ReplaceInserts(s[1..], name, value);
        DollarsOfConcat([s[0]], Replace(s[1..], name, value));
      }
    }
  }

  /** Replacing a name does not take away a backslash at the end, and adds none that the value lacks. */
  lemma {:induction false} ReplaceKeepsEnd(s: string, name: string, value: string)
    requires name != "" && '\\' !in name && value != ""
    ensures s != "" ==> Replace(s, name, value) != ""
    ensures EndsWithBackslash(s) ==> EndsWithBackslash(Replace(s, name, value))
    ensures !EndsWithBackslash(value) ==> EndsWithBackslash(Replace(s, name, value)) == EndsWithBackslash(s)
  {
    if |s| >= |name| {
      if s[..|name|] == name {
        var rest := s[|name|..];
        ReplaceKeepsEnd(rest, name, value);
        EndsAfter(value, Replace(rest, name, value));
        assert s == name + rest;
        EndsAfter(name, rest);
        assert !EndsWithBackslash(name);
      } else {
        ReplaceKeepsEnd(s[1..], name, value);
        EndsAfter([s[0]], Replace(s[1..], name, value));
        EndsAfter([s[0]], s[1..]);
        assert s == [s[0]] + s[1..];
      }
    }
  }

  /** Where the two can be told apart when every variable has the value `value`. */
  predicate Differs(a: Alphabet, value: string, acc: string, prev: string, parts: seq<string>) {
    if value == "$" then Recurs(a, prev, parts)
    else Adjacent(a, prev, parts) || (parts != [] && IsVariable(a, prev, parts[0]) && EndsWithBackslash(acc))
  }

  /** Expansion has got as far as the scanner, and may have escaped a `$` that the scanner has not. */
  ghost predicate InStep(a: Alphabet, env: Environment, value: string, acc: string, prev: string, parts: seq<string>) {
    && value in {"$", "\\"}
    && AllDollarFree(parts)
    && (forall i | 0 <= i < |parts| :: Get(env, NameOf(a, parts[i])) == value)
    && (EndsWithBackslash(prev) ==> EndsWithBackslash(acc))
    && (value == "$" ==> EndsWithBackslash(acc) == EndsWithBackslash(prev))
  }

  lemma SubstitutionStep(a: Alphabet, env: Environment, value: string, acc: string, prev: string, parts: seq<string>)
    requires parts != [] && InStep(a, env, value, acc, prev, parts) && IsVariable(a, prev, parts[0])
        && !EndsWithBackslash(acc)
    ensures var part, added := parts[0], Added(a, env, acc, parts[0]);
            && Dollars(added) >= Dollars(value)
                + (if OccursIn(NameOf(a, part), AfterName(a, part)) then Dollars(value) else 0)
            && (EndsWithBackslash(part) ==> EndsWithBackslash(acc + added))
            && (value == "$" ==> EndsWithBackslash(acc + added) == EndsWithBackslash(part))
            && (value == "\\" && AfterName(a, part) == "" ==> EndsWithBackslash(acc + added))
  {
    var part := parts[0];
    var name, tail := NameOf(a, part), AfterName(a, part);
    NameIsPrefix(a, part);
    EndOfPart(a, part);
    ReplaceName(a, part, value);
    var replaced := Replace(tail, name, value);
    ReplaceInserts(tail, name, value);
    ReplaceKeepsEnd(tail, name, value);
    DollarsOfConcat(value, replaced);
    EndsAfter(acc, value + replaced);
    EndsAfter(value, replaced);
  }

  lemma InStepTail(a: Alphabet, env: Environment, value: string, acc: string, prev: string, parts: seq<string>,
      acc': string)
    requires parts != [] && InStep(a, env, value, acc, prev, parts)
    requires EndsWithBackslash(parts[0]) ==> EndsWithBackslash(acc')
    requires value == "$" ==> EndsWithBackslash(acc') == EndsWithBackslash(parts[0])
    ensures InStep(a, env, value, acc', parts[0], parts[1..])
  {
    assert forall i | 0 <= i < |parts[1..]| :: parts[1..][i] == parts[i + 1];
  }

  lemma VariableDollars(a: Alphabet, env: Environment, part: string, rest: string)
    requires DollarFree(part) && (rest == "" || rest[0] == '$') && StartsName(a, part)
    ensures Dollars(Scan(a, env, "$" + part + rest, false))
            == Dollars(Get(env, NameOf(a, part))) + Dollars(Scan(a, env, rest, EndsWithBackslash(part)))
  {
    var value, after := Get(env, NameOf(a, part)), AfterName(a, part);
    ScanReplacedPart(a, env, part, rest);
    EndOfPart(a, part);
    NameIsPrefix(a, part);
    assert DollarFree(after);
    var scanned := Scan(a, env, rest, EndsWithBackslash(part));
    DollarsOfConcat(value + after, scanned);
    DollarsOfConcat(value, after);
  }

  lemma KeptDollars(a: Alphabet, env: Environment, part: string, rest: string, escaped: bool)
    requires DollarFree(part) && (rest == "" || rest[0] == '$') && (escaped || !StartsName(a, part))
    ensures Dollars(Scan(a, env, "$" + part + rest, escaped))
        == 1 + Dollars(Scan(a, env, rest, EndsWithBackslash(part)))
  {
    ScanKeptPart(a, env, part, rest, escaped);
    KeptEnd("", part);
    DollarsOfConcat("$" + part, Scan(a, env, rest, EndsWithBackslash(part)));
  }

  /** What the first part adds to the scanner's output ... */
  lemma ScannedDollars(a: Alphabet, env: Environment, value: string, acc: string, prev: string, parts: seq<string>)
    requires parts != [] && InStep(a, env, value, acc, prev, parts)
    ensures Dollars(Scan(a, env, Joined(parts), EndsWithBackslash(prev)))
            == (if IsVariable(a, prev, parts[0]) then Dollars(value) else 1)
               + Dollars(Scan(a, env, Joined(parts[1..]), EndsWithBackslash(parts[0])))
  {
    var part, rest := parts[0], Joined(parts[1..]);
    assert DollarFree(part) && Joined(parts) == "$" + part + rest;
    if IsVariable(a, prev, part) {
      VariableDollars(a, env, part, rest);
    } else {
      KeptDollars(a, env, part, rest, EndsWithBackslash(prev));
    }
  }

  /** ... and to the expansion, which is at least as much. */
  lemma AddedDollars(a: Alphabet, env: Environment, value: string, acc: string, prev: string, parts: seq<string>)
    requires parts != [] && InStep(a, env, value, acc, prev, parts)
    ensures var acc' := acc + Added(a, env, acc, parts[0]);
            && InStep(a, env, value, acc', parts[0], parts[1..])
            && Dollars(acc') >= Dollars(acc) + (if IsVariable(a, prev, parts[0]) then Dollars(value) else 1)
            && (Differs(a, value, acc, prev, parts) ==>
                  || Differs(a, value, acc', parts[0], parts[1..])
                  || Dollars(acc') > Dollars(acc) + (if IsVariable(a, prev, parts[0]) then Dollars(value) else 1))
  {
    var part := parts[0];
    var added := Added(a, env, acc, part);
    assert DollarFree(part);
    DollarsOfConcat(acc, added);
    if IsVariable(a, acc, part) {
      SubstitutionStep(a, env, value, acc, prev, parts);
      EndOfPart(a, part);
    } else {
      KeptEnd(acc, part);
    }
    InStepTail(a, env, value, acc, prev, parts, acc + added);
  }

  lemma {:induction false} MoreDollars(a: Alphabet, env: Environment, value: string, acc: string, prev: string,
      parts: seq<string>)
    requires InStep(a, env, value, acc, prev, parts)
    ensures Dollars(ExpandParts(a, env, acc, parts))
            >= Dollars(acc) + Dollars(Scan(a, env, Joined(parts), EndsWithBackslash(prev)))
               + (if Differs(a, value, acc, prev, parts) then 1 else 0)
    decreases |parts|
  {
    if parts != [] {
      ScannedDollars(a, env, value, acc, prev, parts);
      AddedDollars(a, env, value, acc, prev, parts);
      MoreDollars(a, env, value, acc + Added(a, env, acc, parts[0]), parts[0], parts[1..]);
    }
  }

  lemma KeptEnd(acc: string, part: string)
    ensures EndsWithBackslash(acc + ("$" + part)) == EndsWithBackslash(part)
    ensures Dollars("$" + part) == 1 + Dollars(part)
  {
    EndsAfter(acc, "$" + part);
    EndsAfter("$", part);
    DollarsOfConcat("$", part);
  }

  /** Every variable has this value. */
  function Everywhere(a: Alphabet, parts: seq<string>, value: string): Environment {
    var names := set i | 0 <= i < |parts| :: NameOf(a, parts[i]);
    map n | n in names :: value
  }

  lemma SomeEnvironmentDiffers(a: Alphabet, s: string, value: string)
    requires value in {"$", "\\"} && Differs(a, value, Split(s)[0], Split(s)[0], Split(s)[1..])
    ensures exists env :: Expand(a, env, s) != Scan(a, env, s, false)
  {
    var first, rest := Split(s)[0], Split(s)[1..];
    var env := Everywhere(a, rest, value);
    SplitJoin(s);
    assert AllDollarFree(rest) by {
      assert forall i | 0 <= i < |rest| :: rest[i] == Split(s)[i + 1];
    }
    assert DollarFree(first);
    MoreDollars(a, env, value, first, first, rest);
    ScanText(a, env, first, Joined(rest), false);
    DollarsOfConcat(first, Scan(a, env, Joined(rest), EndsWithBackslash(first)));
    assert Expand(a, env, s) != Scan(a, env, s, false);
  }

  /** Expansion is meant to replace each variable and keep the rest. It does so, in all environments,
      exactly when no variable follows another one directly and no name occurs again before the
      next `$`. */
  lemma AgreesWithScanExactly(a: Alphabet, s: string)
    ensures (forall env :: Expand(a, env, s) == Scan(a, env, s, false)) <==>
              !Recurs(a, Split(s)[0], Split(s)[1..]) && !Adjacent(a, Split(s)[0], Split(s)[1..])
  {
    var first, rest := Split(s)[0], Split(s)[1..];
    if Recurs(a, first, rest) {
      SomeEnvironmentDiffers(a, s, "$");
    } else if Adjacent(a, first, rest) {
      SomeEnvironmentDiffers(a, s, "\\");
    } else {
      forall env ensures Expand(a, env, s) == Scan(a, env, s, false) {
        SeparateIsPlain(a, env, first, rest);
        ExpandIsScan(a, env, s);
      }
    }
  }
}

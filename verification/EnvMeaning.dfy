/** What expansion puts in the place of a variable, said character by character. */
module EnvMeaning {
  import opened EnvHelp
  import opened EnvScanner

  /** Characters of which a variable name is made. */
  predicate NameCharacters(a: Alphabet, s: string) {
    forall i | 0 <= i < |s| :: a.alpha(s[i]) || a.digit(s[i]) || s[i] == '_'
  }

  lemma {:induction false} NameOfName(a: Alphabet, name: string, rest: string)
    requires NameCharacters(a, name)
    requires rest != "" ==> !a.alpha(rest[0]) && !a.digit(rest[0]) && rest[0] != '_'
    ensures NameOf(a, name + rest) == name
  {
    if name == "" {
      assert name + rest == rest;
    } else {
      assert (name + rest)[0] == name[0] && (name + rest)[1..] == name[1..] + rest;
      NameOfName(a, name[1..], rest);
    }
  }

  /** The name stands at position k of s. */
  predicate StandsAt(s: string, name: string, k: nat) {
    k + |name| <= |s| && s[k..k + |name|] == name
  }

  lemma StandsInTail(s: string, name: string, k: nat)
    requires s != ""
    ensures StandsAt(s[1..], name, k) <==> StandsAt(s, name, k + 1)
    ensures StandsAt(s, name, 0) <==> name <= s
  {
    if k + 1 + |name| <= |s| {
      assert s[1..][k..k + |name|] == s[k + 1..k + 1 + |name|];
    }
  }

  lemma {:induction false} AbsentNowhere(name: string, s: string)
    requires name != "" && forall k: nat :: !StandsAt(s, name, k)
    ensures !OccursIn(name, s)
  {
    if s != "" {
      StandsInTail(s, name, 0);
      assert !StandsAt(s, name, 0);
      forall k: nat ensures !StandsAt(s[1..], name, k) {
        StandsInTail(s, name, k);
        assert !StandsAt(s, name, k + 1);
      }
      AbsentNowhere(name, s[1..]);
    }
  }

  lemma {:induction false} SplitAtDollar(text: string, part: string)
    requires DollarFree(text) && DollarFree(part)
    ensures Split(text + "$" + part) == [text, part]
  {
    var s := text + "$" + part;
    if text == "" {
      assert s[0] == '$' && s[1..] == part;
      SplitOnly(part);
    } else {
      assert s[0] == text[0] && s[1..] == text[1..] + "$" + part;
      SplitAtDollar(text[1..], part);
      assert [text[0]] + text[1..] == text;
    }
  }

  lemma NameIsDollarFree(a: Alphabet, name: string, rest: string)
    requires NameCharacters(a, name) && '$' !in rest
    ensures DollarFree(name + rest)
  {
    assert forall i | 0 <= i < |name| :: name[i] != '$';
  }

  /** What a part that starts with the name of a variable adds. */
  lemma AddedValue(a: Alphabet, env: Environment, acc: string, name: string, rest: string)
    requires name != "" && a.alpha(name[0]) && NameCharacters(a, name) && !EndsWithBackslash(acc)
    requires rest != "" ==> !a.alpha(rest[0]) && !a.digit(rest[0]) && rest[0] != '_'
    requires forall k: nat :: !StandsAt(rest, name, k)
    ensures Added(a, env, acc, name + rest) == (if name in env then env[name] else "") + rest
  {
    var part, value := name + rest, if name in env then env[name] else "";
    NameOfName(a, name, rest);
    assert AfterName(a, part) == rest;
    AbsentNowhere(name, rest);
    ReplaceName(a, part, value);
    ReplaceAbsent(rest, name, value);
  }

  lemma ExpandOnePart(a: Alphabet, env: Environment, text: string, part: string)
    requires DollarFree(text) && DollarFree(part)
    ensures Expand(a, env, text + "$" + part) == text + Added(a, env, text, part)
  {
    SplitAtDollar(text, part);
    assert [text, part][1..] == [part] && [part][1..] == [];
    assert ExpandParts(a, env, text, [part]) == ExpandParts(a, env, text + Added(a, env, text, part), []);
  }

  /** A variable is replaced by its value in the environment, or by nothing if it has none, and the text
      around it is kept. */
  lemma VariableIsReplaced(a: Alphabet, env: Environment, text: string, name: string, rest: string)
    requires name != "" && a.alpha(name[0]) && NameCharacters(a, name)
    requires '$' !in text && '$' !in rest && (text == "" || text[|text| - 1] != '\\')
    requires rest != "" ==> !a.alpha(rest[0]) && !a.digit(rest[0]) && rest[0] != '_'
    requires forall k: nat :: !StandsAt(rest, name, k)
    ensures Expand(a, env, text + "$" + (name + rest)) == text + ((if name in env then env[name] else "") + rest)
  {
    NameIsDollarFree(a, name, rest);
    ExpandOnePart(a, env, text, name + rest);
    AddedValue(a, env, text, name, rest);
  }

  lemma ReplaceSkips(s: string, name: string, value: string)
    requires name != "" && |s| >= |name| && !StandsAt(s, name, 0)
    ensures Replace(s, name, value) == [s[0]] + Replace(s[1..], name, value)
  {
    assert s[0..0 + |name|] == s[..|name|];
  }

  lemma Regroup(s: string, k: nat, rest: string)
    requires 0 < k <= |s|
    ensures [s[0]] + (s[1..][..k - 1] + rest) == s[..k] + rest
  {
    assert [s[0]] + s[1..][..k - 1] == s[..k];
  }

  lemma ReplaceHere(s: string, name: string, value: string)
    requires name != "" && StandsAt(s, name, 0)
    ensures Replace(s, name, value) == value + Replace(s[|name|..], name, value)
  {
    assert s[..|name|] == s[0..0 + |name|] == name;
  }

  /** The name does not stand before position k. */
  predicate FirstFrom(s: string, name: string, k: nat) {
    forall i: nat | i < k :: !StandsAt(s, name, i)
  }

  lemma FirstInTail(s: string, name: string, k: nat)
    requires s != "" && k > 0 && FirstFrom(s, name, k)
    ensures FirstFrom(s[1..], name, k - 1) && !StandsAt(s, name, 0)
  {
    forall i: nat | i < k - 1 ensures !StandsAt(s[1..], name, i) {
      StandsInTail(s, name, i);
      assert !StandsAt(s, name, i + 1);
    }
  }

  /** Replacing keeps what is before the first occurrence, and goes on after it; without an occurrence it
      keeps everything. */
  lemma {:induction false} ReplaceAtFirst(s: string, name: string, value: string, k: nat)
    requires name != "" && StandsAt(s, name, k) && FirstFrom(s, name, k)
    ensures Replace(s, name, value) == s[..k] + (value + Replace(s[k + |name|..], name, value))
    decreases k
  {
    if k == 0 {
      ReplaceHere(s, name, value);
      assert s[..0] == [];
    } else {
      FirstInTail(s, name, k);
      StandsInTail(s, name, k - 1);
      ReplaceAtFirst(s[1..], name, value, k - 1);
      assert s[1..][k - 1 + |name|..] == s[k + |name|..];
      ReplaceSkips(s, name, value);
      Regroup(s, k, value + Replace(s[k + |name|..], name, value));
    }
  }

  lemma ReplaceNowhere(s: string, name: string, value: string)
    requires name != "" && forall k: nat :: !StandsAt(s, name, k)
    ensures Replace(s, name, value) == s
  {
    AbsentNowhere(name, s);
    ReplaceAbsent(s, name, value);
  }
}

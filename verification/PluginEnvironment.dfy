/** The environment a plugin process is given. */
module PluginEnvironment {
  import opened EnvHelp
  import opened EnvLaws

  /** A value that bartender holds for the plugin; Unset is None. */
  datatype Setting = Word(word: string) | Number(n: int) | Flag(b: bool) | Unset

  /** What bartender tells the plugin. */
  datatype Settings = Settings(
    name: Setting, version: Setting, instanceName: Setting, path: Setting, webHost: Setting, webPort: Setting,
    sslEnabled: Setting, urlPrefix: Setting, caVerify: Setting, caCert: Setting,
    username: Setting, password: Setting, logLevel: Setting)

  function Digits(n: nat): string {
    if n < 10 then ["0123456789"[n]] else Digits(n / 10) + ["0123456789"[n % 10]]
  }

  /** Python's str(). */
  function Str(v: Setting): string {
    match v
    case Word(word) => word
    case Number(n) => if n < 0 then "-" + Digits(-n) else Digits(n)
    case Flag(b) => if b then "True" else "False"
    case Unset => "None"
  }

  const KEYS := ["BG_NAME", "BG_VERSION", "BG_INSTANCE_NAME", "BG_PLUGIN_PATH", "BG_WEB_HOST", "BG_WEB_PORT",
                 "BG_SSL_ENABLED", "BG_URL_PREFIX", "BG_CA_VERIFY", "BG_CA_CERT", "BG_USERNAME", "BG_PASSWORD",
                 "BG_LOG_LEVEL"]

  function Raw(s: Settings): map<string, Setting> {
    map["BG_NAME" := s.name, "BG_VERSION" := s.version, "BG_INSTANCE_NAME" := s.instanceName,
        "BG_PLUGIN_PATH" := s.path, "BG_WEB_HOST" := s.webHost, "BG_WEB_PORT" := s.webPort,
        "BG_SSL_ENABLED" := s.sslEnabled, "BG_URL_PREFIX" := s.urlPrefix, "BG_CA_VERIFY" := s.caVerify,
        "BG_CA_CERT" := s.caCert, "BG_USERNAME" := s.username, "BG_PASSWORD" := s.password,
        "BG_LOG_LEVEL" := s.logLevel]
  }

  /** Bartender's own entries. */
  function Reserved(s: Settings): Environment {
    map k | k in Raw(s) :: Str(Raw(s)[k])
  }

  lemma KeysAreRaw(s: Settings)
    ensures forall k | k in KEYS :: k in Raw(s)
  {
  }

  lemma KeysAreListed()
    ensures forall k | k in KEYS[..5] || k in KEYS[5..10] || k in KEYS[10..] :: k in KEYS
  {
  }

  lemma RawAreKeys(s: Settings)
    ensures forall k | k in Raw(s) :: k in KEYS
  {
    KeysAreListed();
    assert KEYS[..5] == ["BG_NAME", "BG_VERSION", "BG_INSTANCE_NAME", "BG_PLUGIN_PATH", "BG_WEB_HOST"];
    assert KEYS[5..10] == ["BG_WEB_PORT", "BG_SSL_ENABLED", "BG_URL_PREFIX", "BG_CA_VERIFY", "BG_CA_CERT"];
    assert KEYS[10..] == ["BG_USERNAME", "BG_PASSWORD", "BG_LOG_LEVEL"];
  }

  const PREFIX := "BG_"

  // ----- what the validator accepts as ENVIRONMENT -----

  datatype Scalar = Text(text: string) | NotText

  datatype Declared = Missing | NotADictionary | Dictionary(entries: seq<(Scalar, Scalar)>)

  predicate GoodEntry(entry: (Scalar, Scalar)) {
    entry.0.Text? && !(PREFIX <= entry.0.text) && entry.1.Text?
  }

  /** The result of validate_plugin_environment, with False for the error. */
  predicate Accepts(d: Declared) {
    d.Missing? || (d.Dictionary? && forall i | 0 <= i < |d.entries| :: GoodEntry(d.entries[i]))
  }

  /** The entries of an accepted declaration, in the order of the dictionary. */
  function Items(d: Declared): seq<(string, string)>
    requires Accepts(d)
  {
    if d.Dictionary? then
      seq(|d.entries|, i requires 0 <= i < |d.entries| => (d.entries[i].0.text, d.entries[i].1.text))
    else []
  }

  // ----- the three loops -----

  function WithHost(env: Environment, host: Environment, hostVars: seq<string>): Environment {
    if hostVars == [] then env else
      var rest, v := WithHost(env, host, hostVars[..|hostVars| - 1]), hostVars[|hostVars| - 1];
      if v in rest then rest else rest[v := Get(host, v)]
  }

  function WithItems(a: Alphabet, env: Environment, items: seq<(string, string)>): Environment {
    if items == [] then env else
      var rest, (key, value) := WithItems(a, env, items[..|items| - 1]), items[|items| - 1];
      rest[key := Expand(a, rest, value)]
  }

  function Generate(a: Alphabet, s: Settings, host: Environment, hostVars: seq<string>,
      items: seq<(string, string)>): Environment
  {
    WithItems(a, WithHost(Reserved(s), host, hostVars), items)
  }

  class LocalPluginRunner {
    const settings: Settings
    const environment: seq<(string, string)>

    constructor (settings: Settings, environment: seq<(string, string)>)
      ensures this.settings == settings && this.environment == environment
    {
      this.settings, this.environment := settings, environment;
    }

    /** The first loop, which renders bartender's values. */
    method RenderSettings() returns (pluginEnv: Environment)
      ensures pluginEnv == Reserved(settings)
    {
      var raw := Raw(settings);
      KeysAreRaw(settings);
      RawAreKeys(settings);
      pluginEnv := map[];
      for i := 0 to |KEYS|
        invariant forall k :: k in pluginEnv <==> k in KEYS[..i]
        invariant forall k | k in pluginEnv :: k in raw && pluginEnv[k] == Str(raw[k])
      {
        assert KEYS[..i + 1] == KEYS[..i] + [KEYS[i]];
        assert KEYS[i] in KEYS;
        pluginEnv := pluginEnv[KEYS[i] := Str(raw[KEYS[i]])];
      }
      assert KEYS[..|KEYS|] == KEYS;
    }

    method GeneratePluginEnvironment(a: Alphabet, host: Environment, hostVars: seq<string>)
        returns (pluginEnv: Environment)
      ensures pluginEnv == Generate(a, settings, host, hostVars, environment)
    {
      pluginEnv := RenderSettings();
      for i := 0 to |hostVars|
        invariant pluginEnv == WithHost(Reserved(settings), host, hostVars[..i])
      {
        assert hostVars[..i + 1][..i] == hostVars[..i];
        if hostVars[i] !in pluginEnv {
          pluginEnv := pluginEnv[hostVars[i] := Get(host, hostVars[i])];
        }
      }
      assert hostVars[..|hostVars|] == hostVars;
      ghost var base := pluginEnv;
      for i := 0 to |environment|
        invariant pluginEnv == WithItems(a, base, environment[..i])
      {
        assert environment[..i + 1][..i] == environment[..i];
        var (key, value) := environment[i];
        var expanded := ExpandString(a, pluginEnv, value);
        pluginEnv := pluginEnv[key := expanded];
      }
      assert environment[..|environment|] == environment;
    }
  }

  // ----- what the environment guarantees -----

  function ItemKeys(items: seq<(string, string)>): set<string> {
    set i | 0 <= i < |items| :: items[i].0
  }

  function Elements(names: seq<string>): set<string> {
    set i | 0 <= i < |names| :: names[i]
  }

  lemma {:induction false} HostKeys(env: Environment, host: Environment, hostVars: seq<string>)
    ensures WithHost(env, host, hostVars).Keys == env.Keys + Elements(hostVars)
    ensures forall k | k in env :: WithHost(env, host, hostVars)[k] == env[k]
    ensures forall v | v in Elements(hostVars) && v !in env :: WithHost(env, host, hostVars)[v] == Get(host, v)
  {
    if hostVars != [] {
      var init, last := hostVars[..|hostVars| - 1], hostVars[|hostVars| - 1];
      HostKeys(env, host, init);
      assert Elements(hostVars) == Elements(init) + {last} by {
        assert forall i | 0 <= i < |init| :: init[i] == hostVars[i];
      }
    }
  }

  lemma {:induction false} ItemsKeys(a: Alphabet, env: Environment, items: seq<(string, string)>)
    ensures WithItems(a, env, items).Keys == env.Keys + ItemKeys(items)
    ensures forall k | k in env && k !in ItemKeys(items) :: WithItems(a, env, items)[k] == env[k]
  {
    if items != [] {
      var init, last := items[..|items| - 1], items[|items| - 1];
      ItemsKeys(a, env, init);
      assert ItemKeys(items) == ItemKeys(init) + {last.0} by {
        assert forall i | 0 <= i < |init| :: init[i] == items[i];
      }
    }
  }

  lemma ReservedKeys(s: Settings)
    ensures forall k | k in Reserved(s) :: PREFIX <= k
  {
  }

  /** For every ENVIRONMENT the validator accepts: the keys are bartender's own, the allowed host
      variables and the declared ones; bartender's keys keep bartender's values; and a host variable
      that is neither reserved nor declared has the host's value, or is empty. */
  lemma EnvironmentContents(a: Alphabet, s: Settings, host: Environment, hostVars: seq<string>, d: Declared)
    requires Accepts(d)
    ensures var env := Generate(a, s, host, hostVars, Items(d));
            && (forall k :: k in env <==> k in KEYS || k in hostVars || DeclaredKey(d, k))
            && (forall k | k in Reserved(s) :: k in env && env[k] == Reserved(s)[k])
            && (forall v | v in hostVars && v !in KEYS && !DeclaredKey(d, v) ::
                  v in env && env[v] == if v in host then host[v] else "")
  {
    var withHost := WithHost(Reserved(s), host, hostVars);
    HostKeys(Reserved(s), host, hostVars);
    ItemsKeys(a, withHost, Items(d));
    ReservedKeys(s);
    KeysAreRaw(s);
    RawAreKeys(s);
    forall i | 0 <= i < |Items(d)| ensures !(PREFIX <= Items(d)[i].0) {
      assert GoodEntry(d.entries[i]);
    }
    forall k ensures k in ItemKeys(Items(d)) <==> DeclaredKey(d, k) {
      DeclaredKeys(d, k);
    }
    forall k ensures k in Elements(hostVars) <==> k in hostVars {
    }
  }

  ghost predicate DeclaredKey(d: Declared, k: string) {
    d.Dictionary? && exists i :: 0 <= i < |d.entries| && d.entries[i].0 == Text(k)
  }

  lemma DeclaredKeys(d: Declared, k: string)
    requires Accepts(d)
    ensures k in ItemKeys(Items(d)) <==> DeclaredKey(d, k)
  {
    var items := Items(d);
    if i :| 0 <= i < |items| && items[i].0 == k {
      assert GoodEntry(d.entries[i]);
      assert d.entries[i].0 == Text(k);
    }
    if DeclaredKey(d, k) {
      var i :| 0 <= i < |d.entries| && d.entries[i].0 == Text(k);
      assert items[i].0 == k;
    }
  }

  /** Which value of bartender's goes under which key. */
  predicate IsBartenders(s: Settings, key: string, value: Setting) {
    || (key == "BG_NAME" && value == s.name)
    || (key == "BG_VERSION" && value == s.version)
    || (key == "BG_INSTANCE_NAME" && value == s.instanceName)
    || (key == "BG_PLUGIN_PATH" && value == s.path)
    || (key == "BG_WEB_HOST" && value == s.webHost)
    || (key == "BG_WEB_PORT" && value == s.webPort)
    || (key == "BG_SSL_ENABLED" && value == s.sslEnabled)
    || (key == "BG_URL_PREFIX" && value == s.urlPrefix)
    || (key == "BG_CA_VERIFY" && value == s.caVerify)
    || (key == "BG_CA_CERT" && value == s.caCert)
    || (key == "BG_USERNAME" && value == s.username)
    || (key == "BG_PASSWORD" && value == s.password)
    || (key == "BG_LOG_LEVEL" && value == s.logLevel)
  }

  lemma RawValues(s: Settings, key: string, value: Setting)
    requires IsBartenders(s, key, value)
    ensures key in Raw(s) && Raw(s)[key] == value
  {
  }

  lemma RawIsBartenders(s: Settings, key: string)
    requires key in Raw(s)
    ensures IsBartenders(s, key, Raw(s)[key])
  {
  }

  /** These are the values the plugin gets, and there are no other keys of bartender's. */
  lemma BartendersValues(a: Alphabet, s: Settings, host: Environment, hostVars: seq<string>, d: Declared,
      key: string, value: Setting)
    requires Accepts(d) && IsBartenders(s, key, value)
    ensures var env := Generate(a, s, host, hostVars, Items(d)); key in env && env[key] == Str(value)
    ensures forall k | k in KEYS :: exists v :: IsBartenders(s, k, v)
  {
    KeysAreRaw(s);
    forall k | k in KEYS ensures exists v :: IsBartenders(s, k, v) {
      RawIsBartenders(s, k);
    }
    RawValues(s, key, value);
    EnvironmentContents(a, s, host, hostVars, d);
    assert key in Reserved(s);
  }

  // ----- rendering -----

  predicate IsDigit(c: char) {
    '0' <= c <= '9'
  }

  /** The number that a sequence of decimal digits stands for. */
  function Reading(s: string): int {
    if s == "" then 0 else 10 * Reading(s[..|s| - 1]) + (s[|s| - 1] as int - '0' as int)
  }

  lemma {:induction false} DigitsMeaning(n: nat)
    ensures Digits(n) != "" && (forall i | 0 <= i < |Digits(n)| :: IsDigit(Digits(n)[i]))
    ensures Reading(Digits(n)) == n
    ensures Digits(n)[0] == '0' ==> n == 0
  {
    DigitMeaning(n % 10);
    if n < 10 {
      assert ["0123456789"[n]][..0] == "";
      assert Reading([]) == 0;
    } else {
      DigitsMeaning(n / 10);
      AppendDigit(Digits(n / 10), "0123456789"[n % 10]);
    }
  }

  lemma DigitMeaning(d: nat)
    requires d < 10
    ensures IsDigit("0123456789"[d]) && "0123456789"[d] as int - '0' as int == d
  {
  }

  lemma AppendDigit(init: string, last: char)
    ensures Reading(init + [last]) == 10 * Reading(init) + (last as int - '0' as int)
  {
    assert (init + [last])[..|init|] == init;
  }

  /** Python's str(): text as it is, True, False and None, and numbers in decimal without leading zeros. */
  lemma RenderingMeaning(v: Setting)
    ensures match v
            case Word(word) => Str(v) == word
            case Flag(b) => Str(v) == if b then "True" else "False"
            case Unset => Str(v) == "None"
            case Number(n) =>
              && (n < 0 ==> "-" <= Str(v))
              && var digits := if n < 0 then Str(v)[1..] else Str(v);
              && digits != "" && (forall i | 0 <= i < |digits| :: IsDigit(digits[i]))
              && (digits[0] == '0' ==> n == 0)
              && n == if n < 0 then -Reading(digits) else Reading(digits)
  {
    if v.Number? {
      DigitsMeaning(if v.n < 0 then -v.n else v.n);
      assert v.n < 0 ==> Str(v)[1..] == Digits(-v.n);
    }
  }

  // ----- what the validator accepts -----

  /** ENVIRONMENT is accepted exactly if it is missing, or a dictionary from text that does not begin with
      "BG_" to text. */
  lemma AcceptsExactly(d: Declared)
    ensures Accepts(d) <==>
              || d == Missing
              || (d.Dictionary? && forall i | 0 <= i < |d.entries| ::
                    && d.entries[i].0.Text? && d.entries[i].1.Text?
                    && (|d.entries[i].0.text| < 3 || d.entries[i].0.text[..3] != "BG_"))
  {
    if d.Dictionary? {
      forall i | 0 <= i < |d.entries| && d.entries[i].0.Text?
        ensures PREFIX <= d.entries[i].0.text <==> |d.entries[i].0.text| >= 3 && d.entries[i].0.text[..3] == "BG_"
      {
      }
      if Accepts(d) {
        forall i | 0 <= i < |d.entries| ensures GoodEntry(d.entries[i]) {
        }
      }
    }
  }

  /** A declared value is expanded over what was built before it. */
  lemma DeclaredValues(a: Alphabet, s: Settings, host: Environment, hostVars: seq<string>, d: Declared, j: nat)
    requires Accepts(d) && d.Dictionary? && j < |d.entries|
    requires forall i | j < i < |d.entries| :: d.entries[i].0 != d.entries[j].0
    ensures d.entries[j].0.Text? && d.entries[j].1.Text?
    ensures var env, before := Generate(a, s, host, hostVars, Items(d)),
                               Generate(a, s, host, hostVars, Items(Dictionary(d.entries[..j])));
            && d.entries[j].0.text in env
            && env[d.entries[j].0.text] == Expand(a, before, d.entries[j].1.text)
  {
    var items := Items(d);
    assert GoodEntry(d.entries[j]);
    forall i | j < i < |items| ensures items[i].0 != items[j].0 {
      assert GoodEntry(d.entries[i]);
    }
    assert Items(Dictionary(d.entries[..j])) == items[..j];
    ExpandedOverEarlierEntries(a, WithHost(Reserved(s), host, hostVars), items, j);
  }

  /** Only the allowed host variables matter. */
  lemma {:induction false} HostVarsOnly(env: Environment, host: Environment, host': Environment, hostVars: seq<string>)
    requires forall v | v in Elements(hostVars) :: Get(host, v) == Get(host', v)
    ensures WithHost(env, host, hostVars) == WithHost(env, host', hostVars)
  {
    if hostVars != [] {
      var init := hostVars[..|hostVars| - 1];
      forall v | v in Elements(init) ensures v in Elements(hostVars) {
        var i :| 0 <= i < |init| && init[i] == v;
        assert hostVars[i] == v;
      }
      HostVarsOnly(env, host, host', init);
      assert hostVars[|hostVars| - 1] in Elements(hostVars);
    }
  }

  lemma HostIsIsolated(a: Alphabet, s: Settings, host: Environment, host': Environment, hostVars: seq<string>,
      items: seq<(string, string)>)
    requires forall v | v in Elements(hostVars) :: Get(host, v) == Get(host', v)
    ensures Generate(a, s, host, hostVars, items) == Generate(a, s, host', hostVars, items)
  {
    HostVarsOnly(Reserved(s), host, host', hostVars);
  }

  /** Each declared value is expanded over the entries built before it, so it can refer to reserved
      keys, host variables and earlier declarations, and later declarations do not affect it. */
  lemma {:induction false} ExpandedOverEarlierEntries(a: Alphabet, env: Environment, items: seq<(string, string)>,
      j: nat)
    requires j < |items|
    requires forall i | j < i < |items| :: items[i].0 != items[j].0
    ensures items[j].0 in WithItems(a, env, items)
    ensures WithItems(a, env, items)[items[j].0] == Expand(a, WithItems(a, env, items[..j]), items[j].1)
    decreases |items|
  {
    var init := items[..|items| - 1];
    if j < |init| {
      assert forall i | 0 <= i < |init| :: init[i] == items[i];
      assert init[..j] == items[..j];
      assert items[|items| - 1].0 != items[j].0;
      ExpandedOverEarlierEntries(a, env, init, j);
    }
  }

  /** A declared value without a variable reaches the plugin as it was written. */
  lemma LiteralValuesSurvive(a: Alphabet, s: Settings, host: Environment, hostVars: seq<string>,
      items: seq<(string, string)>, j: nat)
    requires j < |items| && Inert(a, items[j].1)
    requires forall i | j < i < |items| :: items[i].0 != items[j].0
    ensures items[j].0 in Generate(a, s, host, hostVars, items)
    ensures Generate(a, s, host, hostVars, items)[items[j].0] == items[j].1
  {
    ExpandedOverEarlierEntries(a, WithHost(Reserved(s), host, hostVars), items, j);
    FixedExactlyWhenInert(a, items[j].1);
  }

  // ----- what the test on the prefix is for -----

  function Paired(keys: seq<string>, values: seq<string>): seq<(string, string)>
    requires |keys| == |values|
  {
    seq(|keys|, i requires 0 <= i < |keys| => (keys[i], values[i]))
  }

  /** Bartender's keys have bartender's values. */
  ghost predicate ReservedSurvive(a: Alphabet, s: Settings, host: Environment, hostVars: seq<string>,
      items: seq<(string, string)>)
  {
    forall k | k in Reserved(s) ::
        k in Generate(a, s, host, hostVars, items) && Generate(a, s, host, hostVars, items)[k] == Reserved(s)[k]
  }

  lemma {:induction false} LastOf(keys: seq<string>, k: string) returns (j: nat)
    requires k in keys
    ensures j < |keys| && keys[j] == k && forall i | j < i < |keys| :: keys[i] != k
  {
    var last := |keys| - 1;
    if keys[last] == k {
      j := last;
    } else {
      j := LastOf(keys[..last], k);
      assert forall i | j < i < last :: keys[i] == keys[..last][i];
    }
  }

  /** A literal value for a reserved key replaces bartender's. */
  lemma ReservedIsReplaced(a: Alphabet, s: Settings, host: Environment, hostVars: seq<string>, keys: seq<string>,
      k: string)
    returns (values: seq<string>)
    requires k in keys && k in Reserved(s)
    ensures |values| == |keys| && !ReservedSurvive(a, s, host, hostVars, Paired(keys, values))
  {
    var value := if Reserved(s)[k] == "" then "x" else "";
    values := seq(|keys|, i => value);
    var j := LastOf(keys, k);
    assert Inert(a, value);
    LiteralValuesSurvive(a, s, host, hostVars, Paired(keys, values), j);
  }

  /** Bartender's values survive whatever values are declared exactly when no declared key is one of
      bartender's. The validator's test on the prefix excludes all of them. */
  lemma PrefixTestIsNeeded(a: Alphabet, s: Settings, host: Environment, hostVars: seq<string>, keys: seq<string>)
    ensures (forall values | |values| == |keys| :: ReservedSurvive(a, s, host, hostVars, Paired(keys, values)))
            <==> forall k | k in keys :: k !in Reserved(s)
  {
    if k :| k in keys && k in Reserved(s) {
      var values := ReservedIsReplaced(a, s, host, hostVars, keys, k);
    } else {
      forall values | |values| == |keys| ensures ReservedSurvive(a, s, host, hostVars, Paired(keys, values)) {
        HostKeys(Reserved(s), host, hostVars);
        ItemsKeys(a, WithHost(Reserved(s), host, hostVars), Paired(keys, values));
      }
    }
  }
}

/** The INSTANCES and PLUGIN_ARGS settings of a plugin: what the validator accepts, and the form the
    loader brings them into. */
module PluginConfig {
  import opened Wrappers

  datatype Arg = Text(text: string) | NotText

  /** One PLUGIN_ARGS entry. */
  datatype Args = NoArgs | Args(args: seq<Arg>) | NotAList

  /** A value that is not a list may still be one that a `for` loop can go through. */
  datatype Instances = NoInstances | Instances(names: seq<string>) | NotAListOfNames(iterates: Option<seq<string>>)

  /** A dictionary is given by its items in order; its keys are distinct. */
  datatype ArgsSetting = NoSetting | Shared(args: seq<Arg>) | PerInstance(items: seq<(string, Args)>) | BadSetting

  predicate DistinctItems(items: seq<(string, Args)>) {
    forall i, j | 0 <= i < j < |items| :: items[i].0 != items[j].0
  }

  predicate WellFormed(a: ArgsSetting) {
    a.PerInstance? ==> DistinctItems(a.items)
  }

  /** PLUGIN_ARGS after loading. A value of an unknown type is passed on if INSTANCES is given. */
  datatype LoadedArgs = ByInstance(args: map<string, Args>) | AsGiven

  datatype Config = Config(instances: Instances, pluginArgs: LoadedArgs)

  datatype ConfigError = UnknownArgsType | NotIterable

  // ----- the validator -----

  /** validate_individual_plugin_arguments */
  predicate GoodArgs(a: Args) {
    a.NoArgs? || (a.Args? && forall i | 0 <= i < |a.args| :: a.args[i].Text?)
  }

  predicate HasKey(items: seq<(string, Args)>, name: string) {
    exists i | 0 <= i < |items| :: items[i].0 == name
  }

  /** validate_instances_and_args, with False for the error. */
  predicate Accepts(instances: Instances, a: ArgsSetting) {
    !instances.NotAListOfNames? &&
    match a
    case NoSetting => true
    case Shared(args) => GoodArgs(Args(args))
    case PerInstance(items) =>
      && (forall i | 0 <= i < |items| ::
          (instances.Instances? ==> items[i].0 in instances.names) && GoodArgs(items[i].1))
      && (instances.Instances? && instances.names != []
          ==> forall i | 0 <= i < |instances.names| :: HasKey(items, instances.names[i]))
    case BadSetting => false
  }

  // ----- the loader -----

  function Keys(items: seq<(string, Args)>): seq<string> {
    seq(|items|, i requires 0 <= i < |items| => items[i].0)
  }

  function ToMap(items: seq<(string, Args)>): map<string, Args> {
    if items == [] then map[] else
      var last := items[|items| - 1];
      ToMap(items[..|items| - 1])[last.0 := last.1]
  }

  function ForAll(names: seq<string>, args: Args): map<string, Args> {
    map n | n in names :: args
  }

  const DEFAULT := "default"

  /** What a `for` loop over a given INSTANCES goes through. */
  function Iterated(instances: Instances): Result<seq<string>, ConfigError>
    requires !instances.NoInstances?
  {
    if instances.Instances? then Ok(instances.names)
    else if instances.iterates.Some? then Ok(instances.iterates.value)
    else Err(NotIterable)
  }

  /** The instance and argument part of _load_plugin_config. */
  function Normalise(instances: Instances, a: ArgsSetting): Result<Config, ConfigError> {
    if instances.NoInstances? then
      match a
      case NoSetting => Ok(Config(Instances([DEFAULT]), ByInstance(map[DEFAULT := NoArgs])))
      case Shared(args) => Ok(Config(Instances([DEFAULT]), ByInstance(map[DEFAULT := Args(args)])))
      case PerInstance(items) => Ok(Config(Instances(Keys(items)), ByInstance(ToMap(items))))
      case BadSetting => Err(UnknownArgsType)
    else
      match a
      case NoSetting =>
        var names :- Iterated(instances);
        Ok(Config(instances, ByInstance(ForAll(names, NoArgs))))
      case Shared(args) =>
        var names :- Iterated(instances);
        Ok(Config(instances, ByInstance(ForAll(names, Args(args)))))
      case PerInstance(items) => Ok(Config(instances, ByInstance(ToMap(items))))
      case BadSetting => Ok(Config(instances, AsGiven))
  }

  /** The loops that give every instance the same arguments. */
  method GiveToAll(instances: Instances, args: Args) returns (r: Result<Config, ConfigError>)
    requires !instances.NoInstances?
    ensures r == match Iterated(instances)
                 case Ok(names) => Ok(Config(instances, ByInstance(ForAll(names, args))))
                 case Err(e) => Err(e)
  {
    if instances.NotAListOfNames? && instances.iterates.None? {
      return Err(NotIterable);
    }
    var names := if instances.Instances? then instances.names else instances.iterates.value;
    var m := map[];
    for i := 0 to |names|
      invariant m == ForAll(names[..i], args)
    {
      assert names[..i + 1] == names[..i] + [names[i]];
      m := m[names[i] := args];
    }
    assert names[..|names|] == names;
    return Ok(Config(instances, ByInstance(m)));
  }

  method LoadPluginConfig(instances: Instances, a: ArgsSetting) returns (r: Result<Config, ConfigError>)
    ensures r == Normalise(instances, a)
    ensures r == Err(UnknownArgsType) <==> instances == NoInstances && a == BadSetting
    ensures r == Err(NotIterable) <==> instances == NotAListOfNames(None) && (a == NoSetting || a.Shared?)
    ensures r.Ok? && instances != NoInstances ==> r.value.instances == instances
  {
    if instances.NoInstances? && a.NoSetting? {
      return Ok(Config(Instances([DEFAULT]), ByInstance(map[DEFAULT := NoArgs])));
    } else if a.NoSetting? {
      r := GiveToAll(instances, NoArgs);
    } else if instances.NoInstances? {
      if a.Shared? {
        return Ok(Config(Instances([DEFAULT]), ByInstance(map[DEFAULT := Args(a.args)])));
      } else if a.PerInstance? {
        return Ok(Config(Instances(Keys(a.items)), ByInstance(ToMap(a.items))));
      }
      return Err(UnknownArgsType);
    } else if a.Shared? {
      r := GiveToAll(instances, Args(a.args));
    } else {
      return Ok(Config(instances, if a.PerInstance? then ByInstance(ToMap(a.items)) else AsGiven));
    }
  }

  // ----- the two agree -----

  lemma {:induction false} ToMapMeaning(items: seq<(string, Args)>)
    requires DistinctItems(items)
    ensures forall k :: k in ToMap(items) <==> HasKey(items, k)
    ensures forall i | 0 <= i < |items| :: items[i].0 in ToMap(items) && ToMap(items)[items[i].0] == items[i].1
  {
    if items != [] {
      var n := |items| - 1;
      var init := items[..n];
      ToMapMeaning(init);
      forall k ensures k in ToMap(items) <==> HasKey(items, k) {
        if HasKey(init, k) {
          var i :| 0 <= i < n && init[i].0 == k;
          assert items[i].0 == k;
        }
        if HasKey(items, k) && k != items[n].0 {
          var i :| 0 <= i < |items| && items[i].0 == k;
          assert init[i].0 == k;
        }
      }
      forall i | 0 <= i < |items| ensures items[i].0 in ToMap(items) && ToMap(items)[items[i].0] == items[i].1 {
        if i < n {
          assert init[i] == items[i];
          assert items[i].0 != items[n].0;
        }
      }
    }
  }

  function NameSet(names: seq<string>): set<string> {
    set n | n in names
  }

  /** INSTANCES is a list, each instance has arguments, nothing else has, and all of them are good. */
  ghost predicate Consistent(c: Config) {
    && c.instances.Instances?
    && c.pluginArgs.ByInstance?
    && c.pluginArgs.args.Keys == NameSet(c.instances.names)
    && AllGood(c.pluginArgs.args)
  }

  /** The validator accepts exactly the settings that the loader brings, without an error, into a form
      in which the instances are the keys of the arguments and all arguments are good. (Arguments that
      are shared by no instance at all are checked as well.) */
  lemma AcceptedExactlyWhenConsistent(instances: Instances, a: ArgsSetting)
    requires WellFormed(a)
    ensures Accepts(instances, a) <==>
              && Normalise(instances, a).Ok?
              && Consistent(Normalise(instances, a).value)
              && (a.Shared? ==> AllText(a.args))
  {
    if a.PerInstance? {
      ItemsAgree(a.items);
      ItemKeysAgree(a.items);
      if instances.Instances? {
        KeysAgree(instances.names, a.items);
      } else if instances.NoInstances? {
        KeysAgree(Keys(a.items), a.items);
      }
    }
  }

  /** What the loader makes of settings, also of those that the validator rejects: INSTANCES as it is
      given, or ["default"], or the keys of PLUGIN_ARGS in their order; and for each name that INSTANCES
      yields the shared list or None, or the items as they are. */
  lemma LoadedArguments(instances: Instances, a: ArgsSetting)
    requires WellFormed(a) && Normalise(instances, a).Ok?
    ensures var c := Normalise(instances, a).value;
            && (instances != NoInstances ==> c.instances == instances)
            && (instances == NoInstances && !a.PerInstance? ==> c.instances == Instances(["default"]))
            && (instances == NoInstances && a.PerInstance? ==>
                  && c.instances.Instances? && |c.instances.names| == |a.items|
                  && forall i | 0 <= i < |a.items| :: c.instances.names[i] == a.items[i].0)
            && (a == BadSetting <==> c.pluginArgs == AsGiven)
            && (a == NoSetting || a.Shared? ==>
                  && (c.instances.Instances? || (c.instances.NotAListOfNames? && c.instances.iterates.Some?))
                  && var names := if c.instances.Instances? then c.instances.names else c.instances.iterates.value;
                     && (forall n :: n in c.pluginArgs.args <==> n in names)
                     && forall n | n in names ::
                          c.pluginArgs.args[n] == if a.Shared? then Args(a.args) else NoArgs)
            && (a.PerInstance? ==>
                  && (forall n :: n in c.pluginArgs.args <==> exists i :: 0 <= i < |a.items| && a.items[i].0 == n)
                  && forall i | 0 <= i < |a.items| :: c.pluginArgs.args[a.items[i].0] == a.items[i].1)
  {
    if a.PerInstance? {
      ToMapMeaning(a.items);
      assert forall n :: HasKey(a.items, n) <==> exists i :: 0 <= i < |a.items| && a.items[i].0 == n;
    }
  }

  /** What every accepted setting becomes: INSTANCES as it is given, or ["default"], or the keys of
      PLUGIN_ARGS in their order; and for each instance the shared list, its own item, or None. */
  lemma AcceptedArguments(instances: Instances, a: ArgsSetting)
    requires WellFormed(a) && Accepts(instances, a)
    ensures Normalise(instances, a).Ok?
    ensures var c := Normalise(instances, a).value;
            && c.instances.Instances? && c.pluginArgs.ByInstance?
            && (instances.Instances? ==> c.instances.names == instances.names)
            && (instances == NoInstances && !a.PerInstance? ==> c.instances.names == ["default"])
            && (instances == NoInstances && a.PerInstance? ==>
                  && |c.instances.names| == |a.items|
                  && forall i | 0 <= i < |a.items| :: c.instances.names[i] == a.items[i].0)
            && (forall n :: n in c.pluginArgs.args <==> n in c.instances.names)
            && (a == NoSetting ==> forall n | n in c.instances.names :: c.pluginArgs.args[n] == NoArgs)
            && (a.Shared? ==> forall n | n in c.instances.names :: c.pluginArgs.args[n] == Args(a.args))
            && (a.PerInstance? ==> forall i | 0 <= i < |a.items| ::
                  a.items[i].0 in c.pluginArgs.args && c.pluginArgs.args[a.items[i].0] == a.items[i].1)
  {
    AcceptedExactlyWhenConsistent(instances, a);
    var c := Normalise(instances, a).value;
    assert forall n :: n in NameSet(c.instances.names) <==> n in c.instances.names;
    if a.PerInstance? {
      ToMapMeaning(a.items);
    }
  }

  /** Each key of the map is the key of an item and has its arguments. */
  lemma ItemOf(items: seq<(string, Args)>, k: string) returns (i: nat)
    requires DistinctItems(items) && k in ToMap(items)
    ensures i < |items| && items[i].0 == k && items[i].1 == ToMap(items)[k]
  {
    ToMapMeaning(items);
    assert HasKey(items, k);
    i :| 0 <= i < |items| && items[i].0 == k;
  }

  lemma EntryOf(items: seq<(string, Args)>, i: nat)
    requires DistinctItems(items) && i < |items|
    ensures items[i].0 in ToMap(items) && ToMap(items)[items[i].0] == items[i].1
  {
    ToMapMeaning(items);
  }

  ghost predicate AllGood(m: map<string, Args>) {
    forall k | k in m :: m[k] == NoArgs || (m[k].Args? && AllText(m[k].args))
  }

  ghost predicate AllText(args: seq<Arg>) {
    forall i | 0 <= i < |args| :: args[i] != NotText
  }

  lemma GoodMeansText(a: Args)
    ensures GoodArgs(a) <==> a == NoArgs || (a.Args? && AllText(a.args))
  {
  }

  lemma GoodItemsMakeGoodMap(items: seq<(string, Args)>)
    requires DistinctItems(items) && forall i | 0 <= i < |items| :: GoodArgs(items[i].1)
    ensures AllGood(ToMap(items))
  {
    forall k | k in ToMap(items) ensures GoodArgs(ToMap(items)[k]) {
      var i := ItemOf(items, k);
      assert GoodArgs(items[i].1);
    }
  }

  lemma GoodMapHasGoodItems(items: seq<(string, Args)>, i: nat)
    requires DistinctItems(items) && AllGood(ToMap(items)) && i < |items|
    ensures GoodArgs(items[i].1)
  {
    EntryOf(items, i);
    assert items[i].0 in ToMap(items);
  }

  /** The arguments in the map are those of the items. */
  lemma ItemsAgree(items: seq<(string, Args)>)
    requires DistinctItems(items)
    ensures AllGood(ToMap(items)) <==> forall i | 0 <= i < |items| :: GoodArgs(items[i].1)
  {
    if AllGood(ToMap(items)) {
      forall i | 0 <= i < |items| ensures GoodArgs(items[i].1) {
        GoodMapHasGoodItems(items, i);
      }
    } else if forall i | 0 <= i < |items| :: GoodArgs(items[i].1) {
      GoodItemsMakeGoodMap(items);
    }
  }

  lemma ItemKeysAgree(items: seq<(string, Args)>)
    requires DistinctItems(items)
    ensures NameSet(Keys(items)) == ToMap(items).Keys
  {
    forall k ensures k in NameSet(Keys(items)) <==> k in ToMap(items) {
      if k in ToMap(items) {
        var i := ItemOf(items, k);
        assert Keys(items)[i] == k;
      }
      if k in Keys(items) {
        var i :| 0 <= i < |items| && Keys(items)[i] == k;
        EntryOf(items, i);
      }
    }
  }

  lemma KeysAgree(names: seq<string>, items: seq<(string, Args)>)
    requires DistinctItems(items)
    ensures ToMap(items).Keys == NameSet(names) <==>
              (forall i | 0 <= i < |items| :: items[i].0 in names)
                  && (forall i | 0 <= i < |names| :: HasKey(items, names[i]))
  {
    ToMapMeaning(items);
    if ToMap(items).Keys == NameSet(names) {
      forall i | 0 <= i < |items| ensures items[i].0 in names {
        assert items[i].0 in ToMap(items);
      }
      forall i | 0 <= i < |names| ensures HasKey(items, names[i]) {
        assert names[i] in NameSet(names);
      }
    }
    if (forall i | 0 <= i < |items| :: items[i].0 in names)
        && (forall i | 0 <= i < |names| :: HasKey(items, names[i])) {
      forall k ensures k in ToMap(items).Keys <==> k in NameSet(names) {
      }
    }
  }
}

/** Application properties: `PropertyHolder` and its enumerated and boolean
  kinds, `PropertyRegistry`, and the dirty-flag persistence of
  `ApplicationPropertyRegistry`.
 */
module Properties {
  import opened Wrappers
  import opened Ordinal
  import opened Strings
  import opened SortedMaps
  import opened SortedMatch
  import opened NameCompletion

  /** What a holder does with completion and validation: a plain holder has
      neither; an enumerated one checks new values against its allowed list. */
  datatype HolderKind =
    | Plain
    | Enumerated(values: seq<string>, completer: ValidCompleter)

  /** A `PropertyHolder`: the current and default values (either may be null). */
  datatype Holder = Holder(value: Option<string>, defaultValue: Option<string>, kind: HolderKind)

  /** The enumerated constructor: the completer is built from the allowed
      values and throws on two values equal up to case. */
  function MakeEnumerated(values: seq<string>, defaultValue: Option<string>): (r: Result<Holder>)
    ensures r.Ok? <==> DistinctIgnoringCase(values)
    ensures r.Ok? ==> r.value.value.None? && r.value.kind.Enumerated? && r.value.kind.values == values
    ensures r.Ok? ==> forall x :: x in KeySet(r.value.kind.completer.nameSet) <==> x in values
  {
    match FromNames(values)
    case Stopped(_, e) => Throw(e)
    case Done(nc) => Ok(Holder(None, defaultValue, Enumerated(values, nc)))
  }

  /** The message when no allowed value matches. */
  function NoMatchMessage(v: string, values: seq<string>): string {
    "'" + v + "' does not match any of [" + Join(", ", values) + "]"
  }

  /** The message when several allowed values match. */
  function AmbiguousMessage(v: string, matches: seq<string>): string {
    "'" + v + "' ambiguous. Matches [" + Join(", ", matches) + "]"
  }

  /** The position of the first occurrence, or -1. */
  function IndexIn(values: seq<string>, v: string): (r: int)
    ensures -1 <= r < |values|
    ensures r >= 0 ==> values[r] == v && forall j :: 0 <= j < r ==> values[j] != v
    ensures r == -1 <==> v !in values
    decreases |values|
  {
    if |values| == 0 then -1
    else if values[0] == v then 0
    else
      var k := IndexIn(values[1..], v);
      assert v in values <==> v in values[1..];
      if k == -1 then -1 else k + 1
  }

  /** `EnumeratedPropertyHolder.OnValueChanged`: the trimmed input must select
      exactly one allowed value through the completer; the result is the index
      handed to the change hook and the value in its declared casing. */
  function OnValueChanged(values: seq<string>, completer: ValidCompleter, newValue: Option<string>): (r: Result<(int, string)>)
    ensures newValue.None? ==> r == Throw(ArgumentNull("newValue"))
    ensures r.Ok? ==> newValue.Some? && GetAlternatives(completer, Trim(newValue.value)) == Some([r.value.1])
    ensures (newValue.Some? && GetAlternatives(completer, Trim(newValue.value)).Some?
             && |GetAlternatives(completer, Trim(newValue.value)).value| == 1) ==> r.Ok?
    ensures r.Ok? ==> r.value.0 == IndexIn(values, r.value.1)
    ensures r.Throw? && newValue.Some? ==> r.error.Raised?
  {
    match newValue
    case None => Throw(ArgumentNull("newValue"))
    case Some(raw) =>
      var v := Trim(raw);
      match GetAlternatives(completer, v)
      case None => Throw(Raised(NoMatchMessage(v, values)))
      case Some(alts) =>
        if |alts| == 0 then Throw(Raised(NoMatchMessage(v, values)))
        else if |alts| > 1 then Throw(Raised(AmbiguousMessage(v, alts)))
        else
          assert alts == [alts[0]];
          Ok((IndexIn(values, alts[0]), alts[0]))
  }

  /** Holder well-formedness: an enumerated holder's completer knows exactly
      its allowed values. */
  ghost predicate WellFormed(h: Holder) {
    h.kind.Enumerated? ==> forall x :: x in KeySet(h.kind.completer.nameSet) <==> x in h.kind.values
  }

  lemma AscendingPair(s: seq<string>)
    requires Ascending(s)
    ensures |s| >= 2 ==> Less(s[0], s[1])
  {
  }

  /** When some allowed value starts with `v`, the alternatives are exactly
      the allowed values starting with `v`. */
  lemma ExactAlternatives(values: seq<string>, completer: ValidCompleter, v: string, x: string)
    requires forall y :: y in KeySet(completer.nameSet) <==> y in values
    requires x in values && v <= x
    ensures GetAlternatives(completer, v).Some?
    ensures var alts := GetAlternatives(completer, v).value;
      Ascending(alts) && |alts| > 0 && forall z :: z in alts <==> z in values && v <= z
  {
    assert x in WithPrefix(completer, v);
    PatternCases(completer, v);
    Alternatives(completer, v);
  }

  /** Unique-prefix selection: a trimmed input that exactly one allowed value
      starts with selects that value. */
  lemma UniquePrefix(values: seq<string>, completer: ValidCompleter, raw: string, x: string)
    requires forall y :: y in KeySet(completer.nameSet) <==> y in values
    requires x in values && Trim(raw) <= x
    requires forall y :: y in values && Trim(raw) <= y ==> y == x
    ensures OnValueChanged(values, completer, Some(raw)) == Ok((IndexIn(values, x), x))
  {
    var v := Trim(raw);
    ExactAlternatives(values, completer, v, x);
    var alts := GetAlternatives(completer, v).value;
    assert alts[0] in alts;
    assert |alts| >= 2 ==> alts[1] in alts;
    AscendingPair(alts);
    Irreflexive(x);
    assert alts == [x];
  }

  /** An input that two allowed values start with is ambiguous. */
  lemma AmbiguousPrefix(values: seq<string>, completer: ValidCompleter, raw: string, x: string, y: string)
    requires forall z :: z in KeySet(completer.nameSet) <==> z in values
    requires x in values && Trim(raw) <= x
    requires y in values && Trim(raw) <= y && x != y
    ensures OnValueChanged(values, completer, Some(raw)).Throw?
  {
    var v := Trim(raw);
    ExactAlternatives(values, completer, v, x);
    var alts := GetAlternatives(completer, v).value;
    assert x in alts && y in alts;
  }

  /** `BooleanPropertyHolder`'s allowed values, false ones first. */
  const BoolValues: seq<string> := ["0", "off", "false", "1", "on", "true"]

  /** `OnEnumeratedPropertyChanged` of the boolean holder: the upper half of
      the list means true. */
  function BoolOfIndex(index: int): (b: bool)
    ensures 0 <= index < |BoolValues| ==> (b <==> BoolValues[index] in ["1", "on", "true"])
  {
    index >= |BoolValues| / 2
  }

  lemma BoolValuesDistinct()
    ensures DistinctIgnoringCase(BoolValues)
  {
    assert ToLower("0")[0] == '0' && ToLower("1")[0] == '1';
  }

  /** The boolean holder, built through the enumerated constructor. */
  function BooleanHolder(): (r: Holder)
    ensures r.value.None? && r.kind.Enumerated? && r.kind.values == BoolValues
    ensures WellFormed(r)
  {
    BoolValuesDistinct();
    MakeEnumerated(BoolValues, None).value
  }

  /** The `bool` constructor stores "true" or "false" without the change hook. */
  function BooleanHolderOf(initial: bool): (r: Holder)
    ensures r.value == Some(if initial then "true" else "false")
    ensures r.kind == BooleanHolder().kind
  {
    BooleanHolder().(value := Some(if initial then "true" else "false"))
  }

  /** "t" selects "true", which the change hook reads as true. */
  lemma BooleanTrue()
    ensures OnValueChanged(BoolValues, BooleanHolder().kind.completer, Some("t")) == Ok((5, "true"))
    ensures BoolOfIndex(5)
  {
    var h := BooleanHolder();
    TrimLetter('t');
    OnlyTrue();
    UniquePrefix(BoolValues, h.kind.completer, "t", "true");
    IndexOfTrue();
  }

  lemma TrimLetter(c: char)
    requires IsAsciiLetter(c)
    ensures Trim([c]) == [c]
  {
  }

  lemma OnlyTrue()
    ensures forall y :: y in BoolValues && "t" <= y ==> y == "true"
  {
    forall y | y in BoolValues && "t" <= y ensures y == "true" {
      assert y[0] == 't';
    }
  }

  lemma IndexOfTrue()
    ensures IndexIn(BoolValues, "true") == 5
  {
  }

  /** "o" is ambiguous between "off" and "on". */
  lemma BooleanAmbiguous()
    ensures OnValueChanged(BoolValues, BooleanHolder().kind.completer, Some("o")).Throw?
  {
    AmbiguousForBoolValues(BooleanHolder());
  }

  lemma AmbiguousForBoolValues(h: Holder)
    requires h.kind.Enumerated? && h.kind.values == BoolValues && WellFormed(h)
    ensures OnValueChanged(BoolValues, h.kind.completer, Some("o")).Throw?
  {
    OffAndOn();
    AmbiguousPrefix(BoolValues, h.kind.completer, "o", "off", "on");
  }

  /** "o" is a prefix of two distinct allowed values. */
  lemma OffAndOn()
    ensures Trim("o") == "o"
    ensures "off" in BoolValues && "o" <= "off"
    ensures "on" in BoolValues && "o" <= "on"
    ensures "off" != "on"
  {
    TrimLetter('o');
    OffIsBoolValue();
    OnIsBoolValue();
    assert "off"[1] != "on"[1];
  }

  lemma OffIsBoolValue()
    ensures "off" in BoolValues && "o" <= "off"
  {
    assert BoolValues[1] == "off";
    assert "off"[..1] == "o";
  }

  lemma OnIsBoolValue()
    ensures "on" in BoolValues && "o" <= "on"
  {
    assert BoolValues[4] == "on";
    assert "on"[..1] == "o";
  }

  /** `CompleteValue`: the completer's alternatives, or null for a plain
      holder. An enumerated holder offers, in order, exactly its values that
      start with the partial value when there are any; otherwise it falls
      back to a match ignoring case, and offers nothing only when that fails
      too. */
  function CompleteValue(h: Holder, partial: string): (r: Option<seq<string>>)
    ensures h.kind.Plain? ==> r.None?
    ensures h.kind.Enumerated? ==> var nc := h.kind.completer;
      r.Some? <==> WithPrefix(nc, partial) != {} || exists k :: k in KeySet(nc.canonical) && ToLower(partial) <= k
    ensures h.kind.Enumerated? && WithPrefix(h.kind.completer, partial) != {} ==>
      && r.Some? && Ascending(r.value)
      && forall x :: x in r.value <==> x in WithPrefix(h.kind.completer, partial)
  {
    match h.kind
    case Plain => None
    case Enumerated(_, completer) =>
      Alternatives(completer, partial);
      PatternCases(completer, partial);
      GetAlternatives(completer, partial)
  }

  /** `PropertyRegistry`: property names to holders, in name order; a name may
      be registered with a null holder. */
  datatype Registry = Registry(props: SortedMap<Option<Holder>>)

  predicate HasProperty(reg: Registry, name: string) {
    name in ToMap(reg.props)
  }

  function AlreadyExists(name: string): string {
    "Property named '" + name + "' already exists"
  }

  /** `RegisterProperty`: a new name only. */
  function RegisterProperty(reg: Registry, name: string, h: Option<Holder>): (r: Result<Registry>)
    ensures r.Throw? <==> HasProperty(reg, name)
    ensures r.Throw? ==> r.error == Argument(AlreadyExists(name))
    ensures r.Ok? ==> ToMap(r.value.props) == ToMap(reg.props)[name := h]
  {
    ToMapKeys(reg.props);
    if HasProperty(reg, name) then Throw(Argument(AlreadyExists(name)))
    else Ok(Registry(Put(reg.props, name, h)))
  }

  /** `UnregisterProperty`: removing an absent name changes nothing. */
  function UnregisterProperty(reg: Registry, name: string): (r: Registry)
    ensures ToMap(r.props) == ToMap(reg.props) - {name}
    ensures !HasProperty(r, name)
  {
    Registry(Remove(reg.props, name))
  }

  /** `GetProperty`: the indexer, which throws for an unknown name. */
  function GetProperty(reg: Registry, name: string): (r: Result<Option<Holder>>)
    ensures r.Throw? <==> !HasProperty(reg, name)
    ensures r.Throw? ==> r.error == KeyNotFound
    ensures r.Ok? ==> r.value == ToMap(reg.props)[name]
  {
    ToMapKeys(reg.props);
    match Get(reg.props, name)
    case None => Throw(KeyNotFound)
    case Some(h) => Ok(h)
  }

  function UnknownProperty(name: string): string {
    "unknown property '" + name + "'"
  }

  /** `SetProperty`: the raw value goes into the holder's `Value`; the holder's
      validation is not consulted. */
  function SetProperty(reg: Registry, name: string, value: Option<string>): (r: Result<Registry>)
    ensures !HasProperty(reg, name) ==> r == Throw(KeyNotFound)
    ensures HasProperty(reg, name) && ToMap(reg.props)[name].None? ==> r == Throw(Argument(UnknownProperty(name)))
    ensures HasProperty(reg, name) && ToMap(reg.props)[name].Some? ==> r.Ok?
    ensures r.Ok? ==> var h := ToMap(reg.props)[name];
      && h.Some?
      && ToMap(r.value.props) == ToMap(reg.props)[name := Some(h.value.(value := value))]
  {
    var h :- GetProperty(reg, name);
    match h
    case None => Throw(Argument(UnknownProperty(name)))
    case Some(holder) => Ok(Registry(Put(reg.props, name, Some(holder.(value := value)))))
  }

  lemma AscendingDistinct(s: seq<string>)
    requires Ascending(s)
    ensures forall i, j :: 0 <= i < j < |s| ==> s[i] != s[j]
  {
    forall i, j | 0 <= i < j < |s| ensures s[i] != s[j] {
      Irreflexive(s[i]);
    }
  }

  /** `Complete`: "<source> <name> <partial>" completes the named property's
      value; anything else completes property names against `lastWord`. */
  function Complete(reg: Registry, sourceCommand: string, partialCommand: string, lastWord: string): (r: Result<Option<seq<string>>>)
    ensures var st := Split(Trim(partialCommand), {' '});
      Trim(partialCommand) != "" && |st| > 1 && st[0] == sourceCommand ==>
        (r.Throw? <==> !HasProperty(reg, st[1]))
    ensures var st := Split(Trim(partialCommand), {' '});
      Trim(partialCommand) != "" && |st| > 1 && st[0] == sourceCommand && HasProperty(reg, st[1]) ==>
        r == (match ToMap(reg.props)[st[1]]
              case None => Ok(None)
              case Some(h) => Ok(CompleteValue(h, lastWord)))
    ensures var st := Split(Trim(partialCommand), {' '});
      !(Trim(partialCommand) != "" && |st| > 1 && st[0] == sourceCommand) ==>
        && r.Ok? && r.value.Some?
        && Ascending(r.value.value)
        && forall x :: x in r.value.value <==> HasProperty(reg, x) && Yields(lastWord, x, _ => false)
  {
    var line := Trim(partialCommand);
    var st := Split(line, {' '});
    if line != "" && |st| > 1 && st[0] == sourceCommand then
      var h :- GetProperty(reg, st[1]);
      match h
      case None => Ok(None)
      case Some(holder) => Ok(CompleteValue(holder, lastWord))
    else
      var names := Keys(reg.props);
      KeysKeySet(reg.props);
      ToMapKeys(reg.props);
      AscendingDistinct(names);
      var m := OfCollection(lastWord, names, Compare);
      CollectionMatches(lastWord, names, _ => false);
      Ok(Some(Drain(m.value, _ => false)))
  }

  /** `ApplicationPropertyRegistry`: the registry, its dirty flag and the
      configuration it saves to. */
  datatype AppRegistry = AppRegistry(reg: Registry, dirty: bool, config: map<string, string>)

  function AppRegister(a: AppRegistry, name: string, h: Option<Holder>): (r: Mutation<AppRegistry>)
    ensures r.Done? <==> !HasProperty(a.reg, name)
    ensures r.Done? ==> r.state.dirty && ToMap(r.state.reg.props) == ToMap(a.reg.props)[name := h]
    ensures r.Stopped? ==> r.state == a
  {
    match RegisterProperty(a.reg, name, h)
    case Throw(e) => Stopped(a, e)
    case Ok(reg) => Done(a.(reg := reg, dirty := true))
  }

  function AppSet(a: AppRegistry, name: string, value: Option<string>): (r: Mutation<AppRegistry>)
    ensures r.Done? ==> r.state.dirty && Ok(r.state.reg) == SetProperty(a.reg, name, value)
    ensures r.Stopped? ==> r.state == a && SetProperty(a.reg, name, value).Throw?
  {
    match SetProperty(a.reg, name, value)
    case Throw(e) => Stopped(a, e)
    case Ok(reg) => Done(a.(reg := reg, dirty := true))
  }

  function AppUnregister(a: AppRegistry, name: string): (r: AppRegistry)
    ensures r.dirty && r.reg == UnregisterProperty(a.reg, name) && r.config == a.config
  {
    a.(reg := UnregisterProperty(a.reg, name), dirty := true)
  }

  /** `ConfigurationFile.SetValue`: a null value removes the key. */
  function SetValue(config: map<string, string>, key: string, value: Option<string>): map<string, string> {
    if value.Some? then config[key := value.value] else config - {key}
  }

  /** The entries of `Save`, written in order into `config`; a null holder
      throws `NullReferenceException` when its `Value` is read. */
  function WriteEntries(entries: seq<(string, Option<Holder>)>, config: map<string, string>): (r: (map<string, string>, bool))
    ensures r.1 <==> forall i :: 0 <= i < |entries| ==> entries[i].1.Some?
    ensures forall k :: k in r.0 ==> k in config || exists i :: 0 <= i < |entries| && entries[i].0 == k
    decreases |entries|
  {
    if |entries| == 0 then (config, true)
    else
      var (written, ok) := WriteEntries(entries[..|entries| - 1], config);
      var last := entries[|entries| - 1];
      if !ok then (written, false)
      else if last.1.None? then (written, false)
      else (SetValue(written, last.0, last.1.value.value), true)
  }

  /** What a successful save stores for an entry list with distinct keys. */
  lemma {:induction false} WriteEntriesContent(entries: seq<(string, Option<Holder>)>)
    requires forall i, j :: 0 <= i < j < |entries| ==> entries[i].0 != entries[j].0
    requires WriteEntries(entries, map[]).1
    ensures forall i :: 0 <= i < |entries| ==>
      var saved := WriteEntries(entries, map[]).0;
      var v := entries[i].1.value.value;
      (entries[i].0 in saved <==> v.Some?) && (v.Some? ==> saved[entries[i].0] == v.value)
    decreases |entries|
  {
    if |entries| > 0 {
      var init := entries[..|entries| - 1];
      WriteEntriesContent(init);
      forall i | 0 <= i < |init| ensures init[i] == entries[i] {}
    }
  }

  /** `Save`: when dirty, clear the configuration and write every property's
      value in name order, then clear dirty; a null holder stops it part-way
      with dirty still set. */
  function Save(a: AppRegistry): (r: Mutation<AppRegistry>)
    ensures !a.dirty ==> r == Done(a)
    ensures a.dirty ==> (r.Done? <==> forall i :: 0 <= i < |a.reg.props| ==> a.reg.props[i].1.Some?)
    ensures r.Done? ==> !r.state.dirty && r.state.reg == a.reg
    ensures r.Stopped? ==> r.state.dirty && r.error == NullReference
    ensures a.dirty && r.Done? ==> forall i :: 0 <= i < |a.reg.props| ==>
      var v := a.reg.props[i].1.value.value;
      (a.reg.props[i].0 in r.state.config <==> v.Some?) && (v.Some? ==> r.state.config[a.reg.props[i].0] == v.value)
  {
    if !a.dirty then Done(a)
    else
      var (config, ok) := WriteEntries(a.reg.props, map[]);
      if ok then
        forall i, j | 0 <= i < j < |a.reg.props| ensures a.reg.props[i].0 != a.reg.props[j].0 {
          Irreflexive(a.reg.props[i].0);
        }
        WriteEntriesContent(a.reg.props);
        Done(a.(dirty := false, config := config))
      else Stopped(a.(config := config), NullReference)
  }
}

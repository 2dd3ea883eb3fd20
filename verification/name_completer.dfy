/** `NameCompleter`: completion over a fixed set of names, first in exact
  case and then, failing that, through the lower-cased forms of the names.

  `nameSet` is the sorted list of names (each mapped to ""), and `canonical`
  maps the lower-cased form of each name to the name as it was added.
 */
module NameCompletion {
  import opened Wrappers
  import opened Ordinal
  import opened Strings
  import opened SortedMaps
  import opened Subsets
  import opened SortedMatch

  datatype NameCompleter = NameCompleter(nameSet: SortedMap<string>, canonical: SortedMap<string>)

  const Empty := NameCompleter([], [])

  /** A completer whose lower-cased index is consistent with its names, as
      every completer built through `AddName` is. */
  type ValidCompleter = nc: NameCompleter | Valid(nc) witness Empty

  /** Every lower-cased entry leads back to a name of the set. */
  predicate Valid(nc: NameCompleter) {
    forall i :: 0 <= i < |nc.canonical| ==>
      ToLower(nc.canonical[i].1) == nc.canonical[i].0 && nc.canonical[i].1 in KeySet(nc.nameSet)
  }

  /** `AddName`: add to the name list, then to the lower-cased index. Either
      `Add` throws on a duplicate; when the second one does, the name list has
      already been extended. */
  function AddName(nc: NameCompleter, name: string): (r: Mutation<NameCompleter>)
    ensures r.Done? <==> name !in KeySet(nc.nameSet) && ToLower(name) !in KeySet(nc.canonical)
    ensures r.Stopped? ==> r.error == Argument(DuplicateKeyMessage)
    ensures KeySet(r.state.nameSet) == if name in KeySet(nc.nameSet) then KeySet(nc.nameSet) else KeySet(nc.nameSet) + {name}
    ensures r.Done? ==> ToMap(r.state.canonical) == ToMap(nc.canonical)[ToLower(name) := name]
    ensures r.Stopped? ==> r.state.canonical == nc.canonical
    ensures Valid(nc) ==> Valid(r.state)
  {
    ToMapKeys(nc.nameSet);
    ToMapKeys(nc.canonical);
    match Add(nc.nameSet, name, "")
    case Throw(e) => Stopped(nc, e)
    case Ok(names) =>
      ToMapKeys(names);
      var grown := nc.(nameSet := names);
      match Add(nc.canonical, ToLower(name), name)
      case Throw(e) => Stopped(grown, e)
      case Ok(canon) =>
        var r := NameCompleter(names, canon);
        AddNameValid(nc, names, canon, name);
        Done(r)
  }

  lemma AddNameValid(nc: NameCompleter, names: SortedMap<string>, canon: SortedMap<string>, name: string)
    requires KeySet(names) == KeySet(nc.nameSet) + {name}
    requires ToMap(canon) == ToMap(nc.canonical)[ToLower(name) := name]
    ensures Valid(nc) ==> Valid(NameCompleter(names, canon))
  {
    if Valid(nc) {
      forall i | 0 <= i < |canon| ensures ToLower(canon[i].1) == canon[i].0 && canon[i].1 in KeySet(names) {
        ToMapAt(canon, i);
        if canon[i].0 != ToLower(name) {
          ToMapKeys(nc.canonical);
          var j :| 0 <= j < |nc.canonical| && nc.canonical[j].0 == canon[i].0;
          ToMapAt(nc.canonical, j);
        }
      }
    }
  }

  /** No two names share a lower-cased form (so no two names are equal). */
  predicate DistinctIgnoringCase(names: seq<string>) {
    forall i, j :: 0 <= i < j < |names| ==> ToLower(names[i]) != ToLower(names[j])
  }

  /** The `string[]` constructor: `AddName` for each name in order. */
  function FromNames(names: seq<string>): (r: Mutation<NameCompleter>)
    ensures Valid(r.state)
    ensures r.Done? <==> DistinctIgnoringCase(names)
    ensures r.Done? ==> forall x :: x in KeySet(r.state.nameSet) <==> x in names
    ensures r.Done? ==> forall x :: x in KeySet(r.state.canonical) <==> exists i :: 0 <= i < |names| && ToLower(names[i]) == x
    decreases |names|
  {
    if |names| == 0 then Done(Empty)
    else
      var init := names[..|names| - 1];
      match FromNames(init)
      case Stopped(s, e) =>
        FromNamesStopped(names);
        Stopped(s, e)
      case Done(s) =>
        FromNamesStep(names, s);
        AddName(s, names[|names| - 1])
  }

  lemma FromNamesStopped(names: seq<string>)
    requires |names| > 0 && !DistinctIgnoringCase(names[..|names| - 1])
    ensures !DistinctIgnoringCase(names)
  {
    var init := names[..|names| - 1];
    var i, j :| 0 <= i < j < |init| && ToLower(init[i]) == ToLower(init[j]);
    assert names[i] == init[i] && names[j] == init[j];
  }

  /** What `AddName` does with the last name, given what the earlier ones
      built. */
  lemma FromNamesStep(names: seq<string>, s: NameCompleter)
    requires |names| > 0
    requires var init := names[..|names| - 1];
      && Valid(s) && DistinctIgnoringCase(init)
      && (forall x :: x in KeySet(s.nameSet) <==> x in init)
      && (forall x :: x in KeySet(s.canonical) <==> exists i :: 0 <= i < |init| && ToLower(init[i]) == x)
    ensures var r := AddName(s, names[|names| - 1]);
      && Valid(r.state)
      && (r.Done? <==> DistinctIgnoringCase(names))
      && (r.Done? ==> forall x :: x in KeySet(r.state.nameSet) <==> x in names)
      && (r.Done? ==> forall x :: x in KeySet(r.state.canonical) <==> exists i :: 0 <= i < |names| && ToLower(names[i]) == x)
  {
    if DistinctIgnoringCase(names) {
      FromNamesFresh(names, s);
    } else {
      FromNamesClash(names, s);
    }
  }

  /** A last name equal up to case to an earlier one makes `AddName` throw. */
  lemma FromNamesClash(names: seq<string>, s: NameCompleter)
    requires |names| > 0 && !DistinctIgnoringCase(names)
    requires var init := names[..|names| - 1];
      && DistinctIgnoringCase(init)
      && (forall x :: x in KeySet(s.nameSet) <==> x in init)
      && (forall x :: x in KeySet(s.canonical) <==> exists i :: 0 <= i < |init| && ToLower(init[i]) == x)
    ensures AddName(s, names[|names| - 1]).Stopped?
  {
    var init := names[..|names| - 1];
    var last := names[|names| - 1];
    var i, j :| 0 <= i < j < |names| && ToLower(names[i]) == ToLower(names[j]);
    assert j == |names| - 1;
    assert init[i] == names[i];
    if names[i] == last {
      assert last in KeySet(s.nameSet);
    } else {
      assert ToLower(last) in KeySet(s.canonical);
    }
  }

  /** A last name new up to case is added to both the names and the index. */
  lemma FromNamesFresh(names: seq<string>, s: NameCompleter)
    requires |names| > 0 && DistinctIgnoringCase(names)
    requires var init := names[..|names| - 1];
      && (forall x :: x in KeySet(s.nameSet) <==> x in init)
      && (forall x :: x in KeySet(s.canonical) <==> exists i :: 0 <= i < |init| && ToLower(init[i]) == x)
    ensures var r := AddName(s, names[|names| - 1]);
      && r.Done?
      && (forall x :: x in KeySet(r.state.nameSet) <==> x in names)
      && (forall x :: x in KeySet(r.state.canonical) <==> exists i :: 0 <= i < |names| && ToLower(names[i]) == x)
  {
    var init := names[..|names| - 1];
    var last := names[|names| - 1];
    var r := AddName(s, last);
    assert forall x :: x in names <==> x in init || x == last;
    FreshLast(names, s);
    assert r.Done?;
    ToMapKeys(s.canonical);
    ToMapKeys(r.state.canonical);
    assert KeySet(r.state.canonical) == KeySet(s.canonical) + {ToLower(last)};
    forall x ensures x in KeySet(r.state.canonical) <==> exists i :: 0 <= i < |names| && ToLower(names[i]) == x {
      LowerFormsSnoc(names, init, x);
    }
  }

  /** The last of names distinct up to case is in neither part yet. */
  lemma FreshLast(names: seq<string>, s: NameCompleter)
    requires |names| > 0 && DistinctIgnoringCase(names)
    requires var init := names[..|names| - 1];
      && (forall x :: x in KeySet(s.nameSet) <==> x in init)
      && (forall x :: x in KeySet(s.canonical) <==> exists i :: 0 <= i < |init| && ToLower(init[i]) == x)
    ensures names[|names| - 1] !in KeySet(s.nameSet)
    ensures ToLower(names[|names| - 1]) !in KeySet(s.canonical)
  {
    var init := names[..|names| - 1];
    var last := names[|names| - 1];
    forall i | 0 <= i < |init| ensures ToLower(init[i]) != ToLower(last) {
      assert names[i] == init[i];
    }
  }

  /** The lower-cased forms of a sequence: those of all but the last, and
      the last one's. */
  lemma LowerFormsSnoc(names: seq<string>, init: seq<string>, x: string)
    requires |names| > 0 && init == names[..|names| - 1]
    ensures (exists i :: 0 <= i < |names| && ToLower(names[i]) == x) <==>
      (exists i :: 0 <= i < |init| && ToLower(init[i]) == x) || x == ToLower(names[|names| - 1])
  {
    if exists i :: 0 <= i < |names| && ToLower(names[i]) == x {
      var i :| 0 <= i < |names| && ToLower(names[i]) == x;
      if i < |init| { assert init[i] == names[i]; }
    }
    if exists i :: 0 <= i < |init| && ToLower(init[i]) == x {
      var i :| 0 <= i < |init| && ToLower(init[i]) == x;
      assert names[i] == init[i];
    }
  }

  /** `GetNames`: the names in sorted order. */
  function GetNames(nc: NameCompleter): (r: seq<string>)
    ensures Ascending(r)
    ensures forall x :: x in r <==> x in KeySet(nc.nameSet)
  {
    KeysKeySet(nc.nameSet);
    Keys(nc.nameSet)
  }

  /** `NameEnumerator`: the run of names, from the tail at or after the
      pattern, that start with the pattern. */
  function Run(pattern: string, s: seq<string>): (r: seq<string>)
    ensures r <= s
    ensures forall i :: 0 <= i < |r| ==> pattern <= r[i]
    ensures |r| < |s| ==> !(pattern <= s[|r|])
    decreases |s|
  {
    if |s| == 0 || !(pattern <= s[0]) then [] else [s[0]] + Run(pattern, s[1..])
  }

  /** On a sorted sequence of the keys at or after `pattern`, the run holds
      every key carrying the prefix, and a run exists exactly when some key
      carries it. */
  lemma RunOfTail(pattern: string, s: seq<string>, keys: set<string>)
    requires Ascending(s)
    requires forall x :: x in s <==> x in keys && LessEq(pattern, x)
    ensures Ascending(Run(pattern, s))
    ensures forall x :: x in Run(pattern, s) <==> x in keys && pattern <= x
    ensures (|s| > 0 && pattern <= s[0]) <==> exists x :: x in keys && pattern <= x
  {
    var r := Run(pattern, s);
    forall x | x in keys && pattern <= x ensures x in r {
      PrefixLessEq(pattern, x);
      RunHolds(pattern, s, x);
    }
    forall x | x in r ensures x in keys && pattern <= x {
      var i :| 0 <= i < |r| && r[i] == x;
      assert s[i] == x;
    }
    if |s| > 0 && pattern <= s[0] {
      assert s[0] in s;
    }
    if exists x :: x in keys && pattern <= x {
      var x :| x in keys && pattern <= x;
      PrefixLessEq(pattern, x);
      RunHolds(pattern, s, x);
      assert r[0] == s[0];
    }
  }

  /** In a sorted sequence starting at or after `pattern`, an element with
      the prefix lies inside the run. */
  lemma RunHolds(pattern: string, s: seq<string>, x: string)
    requires Ascending(s)
    requires forall y :: y in s ==> LessEq(pattern, y)
    requires x in s && pattern <= x
    ensures x in Run(pattern, s)
  {
    var r := Run(pattern, s);
    var i :| 0 <= i < |s| && s[i] == x;
    if i >= |r| {
      var k := |r|;
      assert s[k] in s;
      if k < i {
        LeavesPrefixBlock(pattern, s[k], s[i]);
      }
    }
    assert r[i] == x;
  }

  /** The names from the tail of the name list at or after `pattern`. */
  function NameTail(nc: NameCompleter, pattern: string): (r: seq<string>)
    ensures Ascending(r)
    ensures forall x :: x in r <==> x in KeySet(nc.nameSet) && LessEq(pattern, x)
  {
    var t := TailOfList(nc.nameSet, pattern);
    KeysKeySet(t);
    Keys(t)
  }

  /** The lower-cased forms from the tail of the index at or after `canon`. */
  function CanonicalTail(nc: NameCompleter, canon: string): (r: seq<string>)
    ensures Ascending(r)
    ensures forall x :: x in r <==> x in KeySet(nc.canonical) && LessEq(canon, x)
  {
    var t := Tail(nc.canonical, canon);
    KeysKeySet(t);
    RangeKeys(nc.canonical, Some(canon), None);
    Keys(t)
  }

  /** The names carrying a prefix. */
  function WithPrefix(nc: NameCompleter, p: string): set<string> {
    set x | x in KeySet(nc.nameSet) && p <= x
  }

  /** `GetAlternatives`: the pattern the enumeration runs on, or `None` for
      the null the source returns when nothing matches in either case. The
      fallback replaces the partial name by the same-length prefix of the
      name found through the lower-cased index. */
  function Pattern(nc: NameCompleter, partial: string): (r: Option<string>)
    requires Valid(nc)
    ensures r.Some? ==> |r.value| == |partial| && ToLower(r.value) == ToLower(partial)
    ensures r.Some? ==> exists x :: x in KeySet(nc.nameSet) && r.value <= x
  {
    var names := NameTail(nc, partial);
    if |names| > 0 && partial <= names[0] then
      assert names[0] in names;
      Some(partial)
    else
      var canon := ToLower(partial);
      var keys := CanonicalTail(nc, canon);
      if |keys| == 0 || !(canon <= keys[0]) then None
      else
        assert keys[0] in keys;
        Some(Recover(nc, partial, keys[0]))
  }

  /** The fallback: `canonicalNames[key]` cut to the length of the partial
      name, which is the partial name in the casing of a stored name. */
  function Recover(nc: NameCompleter, partial: string, key: string): (r: string)
    requires Valid(nc)
    requires key in KeySet(nc.canonical) && ToLower(partial) <= key
    ensures |r| == |partial| && ToLower(r) == ToLower(partial)
    ensures exists x :: x in KeySet(nc.nameSet) && r <= x
  {
    ToMapKeys(nc.canonical);
    CanonicalEntry(nc, key);
    var found := Get(nc.canonical, key).value;
    ToLowerPrefix(found, |partial|);
    found[..|partial|]
  }

  lemma CanonicalEntry(nc: NameCompleter, key: string)
    requires Valid(nc) && key in KeySet(nc.canonical)
    ensures key in ToMap(nc.canonical)
    ensures ToLower(ToMap(nc.canonical)[key]) == key && ToMap(nc.canonical)[key] in KeySet(nc.nameSet)
  {
    var i :| 0 <= i < |nc.canonical| && nc.canonical[i].0 == key;
    ToMapAt(nc.canonical, i);
  }

  /** The names the enumerator returned by `GetAlternatives` yields, or `None`. */
  function GetAlternatives(nc: NameCompleter, partial: string): Option<seq<string>>
    requires Valid(nc)
  {
    match Pattern(nc, partial)
    case None => None
    case Some(p) => Some(Run(p, NameTail(nc, p)))
  }

  /** The exact-case path is taken exactly when some name carries the
      partial name; the fallback finds a lower-cased form exactly when one
      carries the lower-cased partial name. */
  lemma PatternCases(nc: NameCompleter, partial: string)
    requires Valid(nc)
    ensures WithPrefix(nc, partial) != {} ==> Pattern(nc, partial) == Some(partial)
    ensures Pattern(nc, partial).Some? <==>
      WithPrefix(nc, partial) != {} || exists k :: k in KeySet(nc.canonical) && ToLower(partial) <= k
  {
    var names := NameTail(nc, partial);
    RunOfTail(partial, names, KeySet(nc.nameSet));
    assert (|names| > 0 && partial <= names[0]) <==> WithPrefix(nc, partial) != {} by {
      if WithPrefix(nc, partial) != {} {
        var x :| x in WithPrefix(nc, partial);
      }
      if exists x :: x in KeySet(nc.nameSet) && partial <= x {
        var x :| x in KeySet(nc.nameSet) && partial <= x;
        assert x in WithPrefix(nc, partial);
      }
    }
    var canon := ToLower(partial);
    var keys := CanonicalTail(nc, canon);
    RunOfTail(canon, keys, KeySet(nc.canonical));
  }

  /** The enumeration on a pattern some name carries. */
  lemma RunOnPattern(nc: NameCompleter, p: string)
    requires exists x :: x in KeySet(nc.nameSet) && p <= x
    ensures Ascending(Run(p, NameTail(nc, p))) && |Run(p, NameTail(nc, p))| > 0
    ensures forall x :: x in Run(p, NameTail(nc, p)) <==> x in WithPrefix(nc, p)
  {
    RunOfTail(p, NameTail(nc, p), KeySet(nc.nameSet));
    var x :| x in KeySet(nc.nameSet) && p <= x;
    assert x in Run(p, NameTail(nc, p));
  }

  /** What `GetAlternatives` yields: exact-case matches when there are any;
      otherwise the names carrying the recovered-case prefix, which is never
      empty; `None` only when no name matches in either case. */
  lemma Alternatives(nc: NameCompleter, partial: string)
    requires Valid(nc)
    ensures WithPrefix(nc, partial) != {} ==> GetAlternatives(nc, partial) == Some(Run(partial, NameTail(nc, partial)))
    ensures GetAlternatives(nc, partial).Some? <==>
      WithPrefix(nc, partial) != {} || exists k :: k in KeySet(nc.canonical) && ToLower(partial) <= k
    ensures GetAlternatives(nc, partial).Some? ==>
      var xs := GetAlternatives(nc, partial).value;
      && Ascending(xs) && |xs| > 0
      && forall x :: x in xs <==> x in WithPrefix(nc, Pattern(nc, partial).value)
  {
    PatternCases(nc, partial);
    if Pattern(nc, partial).Some? {
      RunOnPattern(nc, Pattern(nc, partial).value);
    }
  }
}

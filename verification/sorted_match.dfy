/** `SortedMatchEnumerator`: walks a sorted sequence of names from the first
  one at or after a partial match and yields the names carrying it, stopping
  at the first non-empty name that does not.

  The virtual `Exclude` hook is the parameter `exclude`. A consumer that
  calls `MoveNext` until it returns false sees `Drain`.
 */
module SortedMatch {
  import opened Wrappers
  import opened Ordinal
  import opened SortedMaps
  import opened Subsets

  predicate Ascending(s: seq<string>) {
    forall i, j :: 0 <= i < j < |s| ==> Less(s[i], s[j])
  }

  lemma KeysAscending<V>(m: SortedMap<V>)
    ensures Ascending(Keys(m))
  {
  }

  /** The enumerator: the partial match, the underlying sequence and its
      cursor, the last element read and the decorations. */
  datatype Matcher = Matcher(
    partial: string,
    items: seq<string>,
    pos: nat,
    current: Option<string>,
    prefix: Option<string>,
    suffix: Option<string>)

  /** The raw-enumerator constructor: it starts wherever `items` starts. */
  function Start(partial: string, items: seq<string>): Matcher {
    Matcher(partial, items, 0, None, None, None)
  }

  /** The `SortedList` constructor: from the tail at or after `partial`,
      that is the list's keys from `partial` on, in order. */
  function OfList<V>(partial: string, list: SortedMap<V>): (r: Matcher)
    ensures r.partial == partial && r.pos == 0 && r.current.None?
    ensures Ascending(r.items)
    ensures forall x :: x in r.items <==> x in KeySet(list) && LessEq(partial, x)
  {
    var t := TailOfList(list, partial);
    KeysAscending(t);
    KeysKeySet(t);
    Start(partial, Keys(t))
  }

  /** The `SortedDictionary` constructor: from the tail at or after
      `partial`, that is the dictionary's keys from `partial` on, in order. */
  function OfDictionary<V>(partial: string, d: SortedMap<V>): (r: Matcher)
    ensures r.partial == partial && r.pos == 0 && r.current.None?
    ensures Ascending(r.items)
    ensures forall x :: x in r.items <==> x in KeySet(d) && LessEq(partial, x)
  {
    KeysAscending(Tail(d, partial));
    TailKeySet(d, partial);
    Start(partial, Keys(Tail(d, partial)))
  }

  /** The collection-and-comparer constructor; building the tail copy throws
      on a repeated element. Otherwise it starts from the elements the
      comparer puts at or after `partial`, in ordinal order. */
  function OfCollection(partial: string, c: seq<string>, cmp: (string, string) -> int): (r: Result<Matcher>)
    ensures r.Ok? <==> KeptDistinct(c, cmp, Some(partial), None)
    ensures r.Ok? ==> r.value.partial == partial && r.value.pos == 0 && r.value.current.None?
    ensures r.Ok? ==> Ascending(r.value.items)
    ensures r.Ok? ==> forall x :: x in r.value.items <==> x in c && cmp(x, partial) >= 0
  {
    var t :- TailOfCollection(c, cmp, partial);
    KeysAscending(t);
    KeysKeySet(t);
    Ok(Start(partial, Keys(t)))
  }

  /** An element `MoveNext` steps over without stopping. */
  predicate Skipped(partial: string, x: string, exclude: string -> bool) {
    |x| == 0 || (partial <= x && exclude(x))
  }

  /** An element `MoveNext` stops on and reports. */
  predicate Yields(partial: string, x: string, exclude: string -> bool) {
    |x| > 0 && partial <= x && !exclude(x)
  }

  /** An element that ends the enumeration. */
  predicate Mismatch(partial: string, x: string) {
    |x| > 0 && !(partial <= x)
  }

  function MoveNext(m: Matcher, exclude: string -> bool): (r: (bool, Matcher))
    requires m.pos <= |m.items|
    ensures r.1 == m.(pos := r.1.pos, current := r.1.current)
    ensures m.pos <= r.1.pos <= |m.items|
    ensures forall k :: m.pos <= k < r.1.pos - 1 ==> Skipped(m.partial, m.items[k], exclude)
    ensures r.0 ==> m.pos < r.1.pos && Yields(m.partial, m.items[r.1.pos - 1], exclude)
                    && r.1.current == Some(m.items[r.1.pos - 1])
    ensures !r.0 ==> (r.1.pos == |m.items| && forall k :: m.pos <= k < |m.items| ==> Skipped(m.partial, m.items[k], exclude))
                     || (m.pos < r.1.pos && Mismatch(m.partial, m.items[r.1.pos - 1]))
    decreases |m.items| - m.pos
  {
    if m.pos == |m.items| then (false, m)
    else
      var x := m.items[m.pos];
      var n := m.(pos := m.pos + 1, current := Some(x));
      if |x| == 0 then MoveNext(n, exclude)
      else if !(m.partial <= x) then (false, n)
      else if exclude(x) then MoveNext(n, exclude)
      else (true, n)
  }

  /** Everything a consumer reads by calling `MoveNext` until it fails. */
  function Drain(m: Matcher, exclude: string -> bool): seq<string>
    requires m.pos <= |m.items|
    decreases |m.items| - m.pos
  {
    var (ok, n) := MoveNext(m, exclude);
    if ok then [n.current.value] + Drain(n, exclude) else []
  }

  /** Reference: the elements of `s` a match would report, in order. */
  function Matching(partial: string, s: seq<string>, exclude: string -> bool): (r: seq<string>)
    ensures forall x :: x in r <==> x in s && Yields(partial, x, exclude)
    ensures |r| <= |s|
    ensures (forall i :: 0 <= i < |s| ==> !Yields(partial, s[i], exclude)) ==> r == []
    decreases |s|
  {
    if |s| == 0 then []
    else
      var rest := Matching(partial, s[1..], exclude);
      assert forall x :: x in s <==> x == s[0] || x in s[1..];
      if Yields(partial, s[0], exclude) then [s[0]] + rest else rest
  }

  /** Reference: the elements of `s` before its first mismatch. */
  function UpToMismatch(partial: string, s: seq<string>): (r: seq<string>)
    ensures r <= s
    ensures forall i :: 0 <= i < |r| ==> !Mismatch(partial, r[i])
    ensures |r| < |s| ==> Mismatch(partial, s[|r|])
    decreases |s|
  {
    if |s| == 0 || Mismatch(partial, s[0]) then []
    else [s[0]] + UpToMismatch(partial, s[1..])
  }

  /** `MoveNext` in terms of the reference: one step reports the head of what
      is left to match, and a failing step leaves nothing to match. */
  lemma {:induction false} MoveNextMatching(m: Matcher, exclude: string -> bool)
    requires m.pos <= |m.items|
    ensures var (ok, n) := MoveNext(m, exclude);
      if ok then
        Matching(m.partial, UpToMismatch(m.partial, m.items[m.pos..]), exclude)
          == [n.current.value] + Matching(m.partial, UpToMismatch(m.partial, m.items[n.pos..]), exclude)
      else Matching(m.partial, UpToMismatch(m.partial, m.items[m.pos..]), exclude) == []
    decreases |m.items| - m.pos
  {
    if m.pos < |m.items| {
      var x := m.items[m.pos];
      var n := m.(pos := m.pos + 1, current := Some(x));
      var s := m.items[m.pos..];
      assert s[1..] == n.items[n.pos..];
      if |x| == 0 || (m.partial <= x && exclude(x)) {
        MoveNextMatching(n, exclude);
      }
    }
  }

  /** The enumeration reports exactly the matches before the first mismatch. */
  lemma {:induction false} DrainMatching(m: Matcher, exclude: string -> bool)
    requires m.pos <= |m.items|
    ensures Drain(m, exclude) == Matching(m.partial, UpToMismatch(m.partial, m.items[m.pos..]), exclude)
    decreases |m.items| - m.pos
  {
    MoveNextMatching(m, exclude);
    var (ok, n) := MoveNext(m, exclude);
    if ok {
      DrainMatching(n, exclude);
    }
  }

  /** In a sorted sequence that starts at or after `partial`, nothing after a
      mismatch carries the prefix again. */
  lemma {:induction false} NoMatchAfterMismatch(partial: string, s: seq<string>, exclude: string -> bool)
    requires Ascending(s) && |s| > 0
    requires LessEq(partial, s[0]) && Mismatch(partial, s[0])
    ensures Matching(partial, s, exclude) == []
  {
    forall i | 0 < i < |s| ensures !(partial <= s[i]) {
      LeavesPrefixBlock(partial, s[0], s[i]);
    }
  }

  /** On a sorted tail, stopping at the first mismatch loses nothing. */
  lemma {:induction false} SortedTailMatching(partial: string, s: seq<string>, exclude: string -> bool)
    requires Ascending(s)
    requires forall i :: 0 <= i < |s| ==> LessEq(partial, s[i])
    ensures Matching(partial, UpToMismatch(partial, s), exclude) == Matching(partial, s, exclude)
    decreases |s|
  {
    if |s| > 0 {
      if Mismatch(partial, s[0]) {
        NoMatchAfterMismatch(partial, s, exclude);
      } else {
        SortedTailMatching(partial, s[1..], exclude);
        assert UpToMismatch(partial, s)[1..] == UpToMismatch(partial, s[1..]);
      }
    }
  }

  /** A filter of a sorted sequence is sorted. */
  lemma {:induction false} MatchingAscending(partial: string, s: seq<string>, exclude: string -> bool)
    requires Ascending(s)
    ensures Ascending(Matching(partial, s, exclude))
    decreases |s|
  {
    if |s| > 0 {
      MatchingAscending(partial, s[1..], exclude);
      var rest := Matching(partial, s[1..], exclude);
      forall j | 0 <= j < |rest| ensures Less(s[0], rest[j]) {
        assert rest[j] in rest;
        var i :| 0 <= i < |s[1..]| && s[1..][i] == rest[j];
        assert s[i + 1] == rest[j];
      }
    }
  }

  /** Enumerating a sorted sequence that holds exactly the keys at or after
      `partial` reports, in sorted order, exactly the keys that carry it. */
  lemma TailMatches(partial: string, items: seq<string>, keys: set<string>, exclude: string -> bool)
    requires Ascending(items)
    requires forall x :: x in items <==> x in keys && LessEq(partial, x)
    ensures Ascending(Drain(Start(partial, items), exclude))
    ensures forall x :: x in Drain(Start(partial, items), exclude) <==> x in keys && Yields(partial, x, exclude)
  {
    assert items[0..] == items;
    DrainMatching(Start(partial, items), exclude);
    forall i | 0 <= i < |items| ensures LessEq(partial, items[i]) {
      assert items[i] in items;
    }
    SortedTailMatching(partial, items, exclude);
    MatchingAscending(partial, items, exclude);
    forall x | x in keys && Yields(partial, x, exclude) ensures x in items {
      PrefixLessEq(partial, x);
    }
  }

  /** The keys of a tail of a dictionary are its keys at or after the start. */
  lemma TailKeySet<V>(d: SortedMap<V>, start: string)
    ensures forall x :: x in Keys(Tail(d, start)) <==> x in KeySet(d) && LessEq(start, x)
  {
    var t := Tail(d, start);
    forall x | x in KeySet(d) && LessEq(start, x) ensures x in Keys(t) {
      var i :| 0 <= i < |d| && d[i].0 == x;
      var j :| 0 <= j < |t| && t[j] == d[i];
      assert Keys(t)[j] == x;
    }
    forall x | x in Keys(t) ensures x in KeySet(d) && LessEq(start, x) {
      var j :| 0 <= j < |t| && Keys(t)[j] == x;
      var i :| 0 <= i < |d| && d[i] == t[j];
    }
  }

  /** The dictionary constructor reports, in sorted order, exactly the
      non-empty, non-excluded keys that start with the partial match. */
  lemma DictionaryMatches<V>(partial: string, d: SortedMap<V>, exclude: string -> bool)
    ensures Ascending(Drain(OfDictionary(partial, d), exclude))
    ensures forall x :: x in Drain(OfDictionary(partial, d), exclude) <==> x in KeySet(d) && Yields(partial, x, exclude)
  {
    KeysAscending(Tail(d, partial));
    TailKeySet(d, partial);
    TailMatches(partial, Keys(Tail(d, partial)), KeySet(d), exclude);
  }

  /** The list constructor reports, in sorted order, exactly the non-empty,
      non-excluded keys that start with the partial match. */
  lemma ListMatches<V>(partial: string, list: SortedMap<V>, exclude: string -> bool)
    ensures Ascending(Drain(OfList(partial, list), exclude))
    ensures forall x :: x in Drain(OfList(partial, list), exclude) <==> x in KeySet(list) && Yields(partial, x, exclude)
  {
    var t := TailOfList(list, partial);
    KeysAscending(t);
    KeysKeySet(t);
    TailMatches(partial, Keys(t), KeySet(list), exclude);
  }

  /** The collection constructor under the ordinal comparer, once its tail
      copy is built, reports the sorted matches among the elements. */
  lemma CollectionMatches(partial: string, c: seq<string>, exclude: string -> bool)
    requires OfCollection(partial, c, Compare).Ok?
    ensures Ascending(Drain(OfCollection(partial, c, Compare).value, exclude))
    ensures forall x :: x in Drain(OfCollection(partial, c, Compare).value, exclude) <==> x in c && Yields(partial, x, exclude)
  {
    var t := TailOfCollection(c, Compare, partial).value;
    KeysAscending(t);
    KeysKeySet(t);
    forall x ensures x in Keys(t) <==> x in (set y | y in c) && LessEq(partial, x) {
      assert Contains(t, x) <==> x in c && Compare(x, partial) >= 0;
    }
    TailMatches(partial, Keys(t), (set y | y in c), exclude);
  }

  /** `Current`: the match with `Prefix` before it and `Suffix` after it, each
      only when set; string concatenation in C# reads a null part as "". */
  function Current(m: Matcher): (r: Option<string>)
    ensures r.Some? <==> m.current.Some? || m.prefix.Some? || m.suffix.Some?
    ensures r.Some? ==> r.value == m.prefix.GetOr("") + m.current.GetOr("") + m.suffix.GetOr("")
  {
    var withPrefix := if m.prefix.Some? then Some(m.prefix.value + m.current.GetOr("")) else m.current;
    if m.suffix.Some? then Some(withPrefix.GetOr("") + m.suffix.value) else withPrefix
  }

  /** After a successful `MoveNext`, `Current` is the decorated match and so
      starts with the decorated partial match. */
  lemma CurrentAfterMove(m: Matcher, exclude: string -> bool)
    requires m.pos <= |m.items|
    ensures var n := MoveNext(m, exclude).1;
      MoveNext(m, exclude).0 ==>
      Current(n) == Some(m.prefix.GetOr("") + n.current.value + m.suffix.GetOr(""))
      && m.prefix.GetOr("") + m.partial <= Current(n).value
  {
    if MoveNext(m, exclude).0 {
      var n := MoveNext(m, exclude).1;
      var p := m.prefix.GetOr("");
      var v := n.current.value;
      assert (p + v)[..|p| + |m.partial|] == p + v[..|m.partial|];
      assert (p + v + m.suffix.GetOr(""))[..|p| + |m.partial|] == (p + v)[..|p| + |m.partial|];
    }
  }

  /** `Reset`: forget the current element and rewind the underlying sequence. */
  function Reset(m: Matcher): (r: Matcher)
    ensures r.current.None? && r.pos == 0
    ensures r.partial == m.partial && r.items == m.items && r.prefix == m.prefix && r.suffix == m.suffix
  {
    m.(pos := 0, current := None)
  }

  /** What is enumerated depends only on the partial match, the sequence and
      the cursor. */
  lemma {:induction false} DrainIgnoresDecoration(m: Matcher, n: Matcher, exclude: string -> bool)
    requires m.pos <= |m.items|
    requires m.partial == n.partial && m.items == n.items && m.pos == n.pos
    ensures Drain(m, exclude) == Drain(n, exclude)
    decreases |m.items| - m.pos
  {
    MoveNextDecoration(m, n, exclude);
    var (ok, m') := MoveNext(m, exclude);
    if ok {
      DrainIgnoresDecoration(m', MoveNext(n, exclude).1, exclude);
    }
  }

  lemma {:induction false} MoveNextDecoration(m: Matcher, n: Matcher, exclude: string -> bool)
    requires m.pos <= |m.items|
    requires m.partial == n.partial && m.items == n.items && m.pos == n.pos
    ensures MoveNext(m, exclude).0 == MoveNext(n, exclude).0
    ensures MoveNext(m, exclude).1.pos == MoveNext(n, exclude).1.pos
    ensures MoveNext(m, exclude).0 ==> MoveNext(m, exclude).1.current == MoveNext(n, exclude).1.current
    decreases |m.items| - m.pos
  {
    if m.pos < |m.items| {
      var x := m.items[m.pos];
      MoveNextDecoration(m.(pos := m.pos + 1, current := Some(x)), n.(pos := n.pos + 1, current := Some(x)), exclude);
    }
  }

  /** After `Reset` the enumeration replays from the beginning. */
  lemma ResetReplays(m: Matcher, exclude: string -> bool)
    ensures Drain(Reset(m), exclude) == Drain(Start(m.partial, m.items), exclude)
  {
    DrainIgnoresDecoration(Reset(m), Start(m.partial, m.items), exclude);
  }
}

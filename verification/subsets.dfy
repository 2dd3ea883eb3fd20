/** `SubsetDictionary` and `SubsetCollection`: read-only copies of the part of a
  sorted collection that lies between two inclusive bounds.

  A bound is `None` where the source passes the null key, which leaves that
  side of the range open.
 */
module Subsets {
  import opened Wrappers
  import opened Ordinal
  import opened SortedMaps

  /** The bound test of both constructors: `Compare(key, start) >= 0` and
      `Compare(key, end) <= 0`, each skipped for a null bound. */
  predicate InRangeBy(cmp: (string, string) -> int, k: string, lo: Option<string>, hi: Option<string>) {
    (lo.None? || cmp(k, lo.value) >= 0) && (hi.None? || cmp(k, hi.value) <= 0)
  }

  /** The bound test under the collections' own (ordinal) comparer. */
  predicate InRange(k: string, lo: Option<string>, hi: Option<string>) {
    InRangeBy(Compare, k, lo, hi)
  }

  /** Under the ordinal comparer both bounds are inclusive. */
  lemma InRangeOrder(k: string, lo: Option<string>, hi: Option<string>)
    ensures InRange(k, lo, hi) <==> (lo.None? || LessEq(lo.value, k)) && (hi.None? || LessEq(k, hi.value))
  {
  }

  /** The `SubsetDictionary` constructor: every entry whose key is in range,
      with its value, in the source order. */
  function Range<V>(m: SortedMap<V>, lo: Option<string>, hi: Option<string>): (r: SortedMap<V>)
    ensures forall i :: 0 <= i < |r| ==> r[i] in m && InRange(r[i].0, lo, hi)
    ensures forall i :: 0 <= i < |m| && InRange(m[i].0, lo, hi) ==> m[i] in r
    decreases |m|
  {
    if |m| == 0 then []
    else
      var t: SortedMap<V> := m[1..];
      var rest := Range(t, lo, hi);
      if InRange(m[0].0, lo, hi) then
        var r := [m[0]] + rest;
        forall j | 0 <= j < |rest| ensures Less(m[0].0, rest[j].0) {
          var i :| 0 <= i < |t| && t[i] == rest[j];
          assert Less(m[0].0, m[i + 1].0);
        }
        assert r[1..] == rest;
        forall i | 0 <= i < |m| && InRange(m[i].0, lo, hi) ensures m[i] in r {
          if i > 0 { assert t[i - 1] == m[i]; }
        }
        r
      else
        forall i | 0 <= i < |m| && InRange(m[i].0, lo, hi) ensures m[i] in rest {
          assert t[i - 1] == m[i];
        }
        rest
  }

  /** `SubsetDictionary.Tail`: only the lower bound. */
  function Tail<V>(m: SortedMap<V>, start: string): (r: SortedMap<V>)
    ensures forall i :: 0 <= i < |r| ==> r[i] in m && LessEq(start, r[i].0)
    ensures forall i :: 0 <= i < |m| && LessEq(start, m[i].0) ==> m[i] in r
  {
    Range(m, Some(start), None)
  }

  /** `SubsetDictionary.Head`: only the upper bound. */
  function Head<V>(m: SortedMap<V>, end: string): (r: SortedMap<V>)
    ensures forall i :: 0 <= i < |r| ==> r[i] in m && LessEq(r[i].0, end)
    ensures forall i :: 0 <= i < |m| && LessEq(m[i].0, end) ==> m[i] in r
  {
    Range(m, None, Some(end))
  }

  /** `TryGetValue` and `this[key]` on the copy see the source inside the range
      and nothing outside it. */
  lemma {:induction false} RangeGet<V>(m: SortedMap<V>, lo: Option<string>, hi: Option<string>, k: string)
    ensures Get(Range(m, lo, hi), k) == if InRange(k, lo, hi) then Get(m, k) else None
    decreases |m|
  {
    if |m| > 0 {
      var t: SortedMap<V> := m[1..];
      RangeGet(t, lo, hi, k);
      var r := Range(m, lo, hi);
      if InRange(m[0].0, lo, hi) {
        assert r[1..] == Range(t, lo, hi);
      }
    }
  }

  /** `ContainsKey` and `Count` on the copy: exactly the keys in range. */
  lemma RangeKeys<V>(m: SortedMap<V>, lo: Option<string>, hi: Option<string>)
    ensures KeySet(Range(m, lo, hi)) == set k | k in KeySet(m) && InRange(k, lo, hi)
  {
    var r := Range(m, lo, hi);
    forall k | k in KeySet(m) && InRange(k, lo, hi) ensures k in KeySet(r) {
      var i :| 0 <= i < |m| && m[i].0 == k;
      var j :| 0 <= j < |r| && r[j] == m[i];
    }
    forall k | k in KeySet(r) ensures k in KeySet(m) && InRange(k, lo, hi) {
      var j :| 0 <= j < |r| && r[j].0 == k;
      var i :| 0 <= i < |m| && m[i] == r[j];
    }
  }

  /** The operations the read-only copies refuse. */
  datatype Mutator<V> = AddEntry(key: string, value: V) | RemoveKey(key: string) | SetItem(key: string, value: V) | ClearAll

  /** `IsReadOnly` of both copies. */
  const IsReadOnly := true

  /** Every mutator of `SubsetDictionary` and `SubsetCollection` throws
      `NotSupportedException` and leaves the copy as it was. */
  function Mutate<V>(view: SortedMap<V>, op: Mutator<V>): (r: Mutation<SortedMap<V>>)
    ensures r.Stopped? && r.error == NotSupported && r.state == view
  {
    Stopped(view, NotSupported)
  }

  /** A mutation tried on the copy of a key range is refused and the copy
      still holds exactly the in-range keys of the map it was taken from. */
  lemma MutateRangeRefused<V>(m: SortedMap<V>, lo: Option<string>, hi: Option<string>, op: Mutator<V>)
    ensures var r := Mutate(Range(m, lo, hi), op);
      && r == Stopped(Range(m, lo, hi), NotSupported)
      && KeySet(r.state) == set k | k in KeySet(m) && InRange(k, lo, hi)
  {
    RangeKeys(m, lo, hi);
  }

  /** A `SortedList<string, string>` used as a set: the key set. */
  predicate IsKeySet(c: SortedMap<string>) {
    forall e :: e in c ==> e.0 == e.1
  }

  /** `SubsetCollection(SortedList, start, end)`: the in-range keys of the
      list, each stored as its own value. */
  function RangeOfList<V>(list: SortedMap<V>, lo: Option<string>, hi: Option<string>): (r: SortedMap<string>)
    ensures IsKeySet(r)
    ensures forall x :: x in KeySet(r) <==> x in KeySet(list) && InRange(x, lo, hi)
    decreases |list|
  {
    if |list| == 0 then []
    else
      var t: SortedMap<V> := list[1..];
      var rest := RangeOfList(t, lo, hi);
      KeySetCons(list);
      if InRange(list[0].0, lo, hi) then
        var k := list[0].0;
        var r := [(k, k)] + rest;
        forall j | 0 <= j < |rest| ensures Less(k, rest[j].0) {
          assert rest[j].0 in KeySet(rest);
          var i :| 0 <= i < |t| && t[i].0 == rest[j].0;
          assert Less(k, list[i + 1].0);
        }
        assert r[1..] == rest;
        KeySetCons(r);
        r
      else
        NotInTail(list);
        rest
  }

  /** `SubsetCollection(ICollection, comparer, start, end)`: every element in
      range under `cmp` is added, in collection order, to a new `SortedList`
      with the default order; a repeated kept element makes `Add` throw. */
  function RangeOfCollection(c: seq<string>, cmp: (string, string) -> int, lo: Option<string>, hi: Option<string>): (r: Result<SortedMap<string>>)
    ensures r.Ok? <==> KeptDistinct(c, cmp, lo, hi)
    ensures r.Throw? ==> r.error == Argument(DuplicateKeyMessage)
    ensures r.Ok? ==> IsKeySet(r.value)
    ensures r.Ok? ==> forall x :: x in KeySet(r.value) <==> x in c && InRangeBy(cmp, x, lo, hi)
    decreases |c|
  {
    if |c| == 0 then Ok([])
    else
      var init := c[..|c| - 1];
      var x := c[|c| - 1];
      assert forall y :: y in c <==> y in init || y == x;
      var prev := RangeOfCollection(init, cmp, lo, hi);
      if prev.Throw? then prev
      else if !InRangeBy(cmp, x, lo, hi) then prev
      else
        var r := Add(prev.value, x, x);
        ToMapKeys(prev.value);
        if r.Throw? then r
        else
          ToMapKeys(r.value);
          forall e | e in r.value ensures e.0 == e.1 {
            var i :| 0 <= i < |r.value| && r.value[i] == e;
            ToMapAt(r.value, i);
            if e.0 != x {
              assert e.0 in KeySet(prev.value);
              var j :| 0 <= j < |prev.value| && prev.value[j].0 == e.0;
              ToMapAt(prev.value, j);
            }
          }
          r
  }

  /** No element the range keeps occurs twice in the collection. */
  predicate KeptDistinct(c: seq<string>, cmp: (string, string) -> int, lo: Option<string>, hi: Option<string>) {
    forall i, j :: 0 <= i < j < |c| && InRangeBy(cmp, c[i], lo, hi) ==> c[i] != c[j]
  }

  /** `SubsetCollection.Contains`. */
  predicate Contains(c: SortedMap<string>, x: string) {
    x in KeySet(c)
  }

  /** `SubsetCollection.Tail(SortedList, start)`. */
  function TailOfList<V>(list: SortedMap<V>, start: string): (r: SortedMap<string>)
    ensures forall x :: Contains(r, x) <==> x in KeySet(list) && LessEq(start, x)
  {
    RangeOfList(list, Some(start), None)
  }

  /** `SubsetCollection.Tail(ICollection, comparer, start)`. */
  function TailOfCollection(c: seq<string>, cmp: (string, string) -> int, start: string): (r: Result<SortedMap<string>>)
    ensures r.Ok? <==> KeptDistinct(c, cmp, Some(start), None)
    ensures r.Ok? ==> forall x :: Contains(r.value, x) <==> x in c && cmp(x, start) >= 0
  {
    RangeOfCollection(c, cmp, Some(start), None)
  }
}

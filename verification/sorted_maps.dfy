/** The `SortedDictionary<string, V>` and `SortedList<string, V>` the shell
  keeps its names in: an association list strictly sorted by key.

  `ToMap` is the abstraction: every operation is specified by what it does to
  the mathematical map, and the subset type keeps the key order.
 */
module SortedMaps {
  import opened Wrappers
  import opened Ordinal

  predicate Sorted<V>(m: seq<(string, V)>) {
    forall i, j :: 0 <= i < j < |m| ==> Less(m[i].0, m[j].0)
  }

  type SortedMap<V> = m: seq<(string, V)> | Sorted(m) witness []

  /** The message of the `ArgumentException` thrown by `Add` on a duplicate. */
  const DuplicateKeyMessage := "An item with the same key has already been added."

  function Keys<V>(m: seq<(string, V)>): (r: seq<string>)
    ensures |r| == |m|
    ensures forall i :: 0 <= i < |m| ==> r[i] == m[i].0
  {
    seq(|m|, i requires 0 <= i < |m| => m[i].0)
  }

  function KeySet<V>(m: seq<(string, V)>): set<string> {
    set i | 0 <= i < |m| :: m[i].0
  }

  lemma KeysKeySet<V>(m: seq<(string, V)>)
    ensures forall x :: x in Keys(m) <==> x in KeySet(m)
  {
    forall x | x in KeySet(m) ensures x in Keys(m) {
      var i :| 0 <= i < |m| && m[i].0 == x;
      assert Keys(m)[i] == x;
    }
  }

  function ToMap<V>(m: seq<(string, V)>): map<string, V>
    decreases |m|
  {
    if |m| == 0 then map[] else ToMap(m[1..])[m[0].0 := m[0].1]
  }

  lemma {:induction false} ToMapKeys<V>(m: seq<(string, V)>)
    ensures ToMap(m).Keys == KeySet(m)
    decreases |m|
  {
    if |m| > 0 {
      ToMapKeys(m[1..]);
      assert KeySet(m) == KeySet(m[1..]) + {m[0].0} by {
        forall k | k in KeySet(m) ensures k in KeySet(m[1..]) + {m[0].0} {
          var i :| 0 <= i < |m| && m[i].0 == k;
          if i > 0 { assert m[1..][i - 1].0 == k; }
        }
      }
    }
  }

  lemma {:induction false} ToMapAt<V>(m: SortedMap<V>, i: nat)
    requires i < |m|
    ensures m[i].0 in ToMap(m) && ToMap(m)[m[i].0] == m[i].1
    decreases |m|
  {
    if i > 0 {
      var t: SortedMap<V> := m[1..];
      ToMapAt(t, i - 1);
      Irreflexive(m[i].0);
    }
  }

  /** Every key of the abstraction sits at some position of the list, with
      its value. */
  lemma KeyAt<V>(m: SortedMap<V>, k: string) returns (j: nat)
    requires k in ToMap(m)
    ensures j < |m| && m[j].0 == k && ToMap(m)[k] == m[j].1
  {
    InToMap(m, k);
    j :| 0 <= j < |m| && Keys(m)[j] == k;
    ToMapAt(m, j);
  }

  /** Membership in the abstraction is membership among the keys. */
  lemma InToMap<V>(m: seq<(string, V)>, k: string)
    ensures k in ToMap(m) <==> k in Keys(m)
  {
    ToMapKeys(m);
    if k in Keys(m) {
      var i :| 0 <= i < |m| && Keys(m)[i] == k;
      assert m[i].0 in KeySet(m);
    }
  }

  predicate ContainsKey<V>(m: SortedMap<V>, k: string) {
    k in Keys(m)
  }

  /** `TryGetValue`. */
  function Get<V>(m: SortedMap<V>, k: string): (r: Option<V>)
    ensures r.Some? <==> k in ToMap(m)
    ensures r.Some? ==> r.value == ToMap(m)[k]
    decreases |m|
  {
    InToMap(m, k);
    if |m| == 0 then None
    else if m[0].0 == k then (ToMapAt(m, 0); Some(m[0].1))
    else
      var t: SortedMap<V> := m[1..];
      InToMap(t, k);
      Get(t, k)
  }

  /** Insertion into the list, without its ordering facts. */
  function Insert<V>(m: seq<(string, V)>, k: string, v: V): seq<(string, V)>
    decreases |m|
  {
    if |m| == 0 then [(k, v)]
    else if m[0].0 == k then [(k, v)] + m[1..]
    else if Less(k, m[0].0) then [(k, v)] + m
    else [m[0]] + Insert(m[1..], k, v)
  }

  lemma {:induction false} InsertKeys<V>(m: seq<(string, V)>, k: string, v: V)
    ensures KeySet(Insert(m, k, v)) == KeySet(m) + {k}
    decreases |m|
  {
    var r := Insert(m, k, v);
    if |m| > 0 {
      KeySetCons(m);
      KeySetCons(r);
      if m[0].0 == k {
        assert r[1..] == m[1..];
      } else if Less(k, m[0].0) {
        assert r[1..] == m;
        assert KeySet(r) == KeySet(m) + {k};
      } else {
        InsertKeys(m[1..], k, v);
        assert r[1..] == Insert(m[1..], k, v);
        assert KeySet(r) == KeySet(m[1..]) + {k} + {m[0].0};
      }
    } else {
      assert r[0].0 == k;
      assert KeySet(r) == {k};
    }
  }

  lemma {:induction false} InsertSorted<V>(m: SortedMap<V>, k: string, v: V)
    ensures Sorted(Insert(m, k, v))
    decreases |m|
  {
    var r := Insert(m, k, v);
    if |m| == 0 {
    } else if m[0].0 == k {
      assert r[1..] == m[1..];
    } else if Less(k, m[0].0) {
      forall j | 0 < j < |r| ensures Less(k, r[j].0) {
        if j > 1 { Transitive(k, m[0].0, m[j - 1].0); }
      }
    } else {
      var t: SortedMap<V> := m[1..];
      var rest := Insert(t, k, v);
      InsertSorted(t, k, v);
      InsertKeys(t, k, v);
      Total(k, m[0].0);
      forall j | 0 <= j < |rest| ensures Less(m[0].0, rest[j].0) {
        assert rest[j].0 in KeySet(rest);
        if rest[j].0 != k {
          var i :| 0 <= i < |t| && t[i].0 == rest[j].0;
        }
      }
      assert r == [m[0]] + rest;
    }
  }

  lemma {:induction false} InsertToMap<V>(m: SortedMap<V>, k: string, v: V)
    ensures ToMap(Insert(m, k, v)) == ToMap(m)[k := v]
    decreases |m|
  {
    var r := Insert(m, k, v);
    if |m| == 0 {
    } else if m[0].0 == k {
      assert r[1..] == m[1..];
    } else if Less(k, m[0].0) {
      assert r[1..] == m;
    } else {
      var t: SortedMap<V> := m[1..];
      InsertToMap(t, k, v);
      assert r[1..] == Insert(t, k, v);
    }
  }

  /** The indexer setter `m[k] = v`: insert, or overwrite in place. */
  function Put<V>(m: SortedMap<V>, k: string, v: V): (r: SortedMap<V>)
    ensures ToMap(r) == ToMap(m)[k := v]
    ensures KeySet(r) == KeySet(m) + {k}
  {
    InsertSorted(m, k, v);
    InsertKeys(m, k, v);
    InsertToMap(m, k, v);
    Insert(m, k, v)
  }

  lemma KeySetCons<V>(m: seq<(string, V)>)
    requires |m| > 0
    ensures KeySet(m) == KeySet(m[1..]) + {m[0].0}
  {
    forall k | k in KeySet(m) ensures k in KeySet(m[1..]) + {m[0].0} {
      var i :| 0 <= i < |m| && m[i].0 == k;
      if i > 0 { assert m[1..][i - 1].0 == k; }
    }
  }

  /** A key below the first key of a sorted list is not in it. */
  lemma NotInSorted<V>(m: SortedMap<V>, k: string)
    requires |m| > 0 && Less(k, m[0].0)
    ensures k !in KeySet(m)
  {
    if k in KeySet(m) {
      var i :| 0 <= i < |m| && m[i].0 == k;
      if i > 0 { Transitive(k, m[0].0, m[i].0); }
      Irreflexive(k);
    }
  }

  /** `Add`: insert a new key; an existing key makes it throw and change nothing. */
  function Add<V>(m: SortedMap<V>, k: string, v: V): (r: Result<SortedMap<V>>)
    ensures r.Throw? <==> k in ToMap(m)
    ensures r.Throw? ==> r.error == Argument(DuplicateKeyMessage)
    ensures r.Ok? ==> ToMap(r.value) == ToMap(m)[k := v] && |r.value| == |m| + 1
  {
    ToMapKeys(m);
    if k in KeySet(m) then Throw(Argument(DuplicateKeyMessage))
    else
      var r := Put(m, k, v);
      PutSize(m, k, v);
      Ok(r)
  }

  lemma {:induction false} PutSize<V>(m: SortedMap<V>, k: string, v: V)
    ensures |Put(m, k, v)| == if k in KeySet(m) then |m| else |m| + 1
    decreases |m|
  {
    if |m| > 0 && m[0].0 != k {
      KeySetCons(m);
      if Less(k, m[0].0) {
        NotInSorted(m, k);
      } else {
        var t: SortedMap<V> := m[1..];
        PutSize(t, k, v);
      }
    }
  }

  /** `Remove`: drop the key if present; an absent key is a no-op. */
  function Remove<V>(m: SortedMap<V>, k: string): (r: SortedMap<V>)
    ensures ToMap(r) == ToMap(m) - {k}
    ensures KeySet(r) == KeySet(m) - {k}
    ensures forall e :: e in r ==> e in m
    decreases |m|
  {
    if |m| == 0 then m
    else
      var t: SortedMap<V> := m[1..];
      var rest := Remove(t, k);
      KeySetCons(m);
      if m[0].0 == k then
        NotInTail(m);
        t
      else
        var r := [m[0]] + rest;
        forall j | 0 <= j < |rest| ensures Less(m[0].0, rest[j].0) {
          assert rest[j] in rest;
          assert rest[j] in t;
          var i :| 0 <= i < |t| && t[i] == rest[j];
          assert Less(m[0].0, m[i + 1].0);
        }
        assert r[1..] == rest;
        KeySetCons(r);
        r
  }

  /** In a sorted list the first key does not occur again. */
  lemma NotInTail<V>(m: SortedMap<V>)
    requires |m| > 0
    ensures m[0].0 !in KeySet(m[1..])
    ensures m[0].0 !in ToMap(m[1..])
  {
    if m[0].0 in KeySet(m[1..]) {
      var i :| 0 <= i < |m[1..]| && m[1..][i].0 == m[0].0;
      assert Less(m[0].0, m[i + 1].0);
      Irreflexive(m[0].0);
    }
    ToMapKeys(m[1..]);
  }
}

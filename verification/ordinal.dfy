/** Ordinal (code-point) lexicographic order on strings.

  The shell keeps its names in `SortedDictionary`/`SortedList` instances with
  the default, culture-sensitive comparer. This model uses the ordinal order
  instead; everything the completion code relies on (a strict total order in
  which the strings carrying a given prefix form one contiguous block) holds
  of both.
 */
module Ordinal {

  /** `a` sorts strictly before `b`. */
  predicate Less(a: string, b: string)
    decreases |a|
  {
    if |a| == 0 then |b| > 0
    else if |b| == 0 then false
    else if a[0] == b[0] then Less(a[1..], b[1..])
    else a[0] < b[0]
  }

  predicate LessEq(a: string, b: string) {
    a == b || Less(a, b)
  }

  /** `IComparer<string>.Compare`: negative, zero or positive. */
  function Compare(a: string, b: string): (r: int)
    ensures r < 0 <==> Less(a, b)
    ensures r == 0 <==> a == b
    ensures r > 0 <==> Less(b, a)
  {
    Total(a, b);
    Asymmetric(a, b);
    Irreflexive(a);
    if Less(a, b) then -1 else if a == b then 0 else 1
  }

  lemma Irreflexive(a: string)
    ensures !Less(a, a)
  {
  }

  lemma Asymmetric(a: string, b: string)
    ensures Less(a, b) ==> !Less(b, a)
  {
  }

  lemma Transitive(a: string, b: string, c: string)
    requires Less(a, b) && Less(b, c)
    ensures Less(a, c)
  {
  }

  lemma Total(a: string, b: string)
    ensures a == b || Less(a, b) || Less(b, a)
  {
    if |a| > 0 && |b| > 0 && a[0] == b[0] {
      Total(a[1..], b[1..]);
      if a[1..] == b[1..] {
        assert a == [a[0]] + a[1..] && b == [b[0]] + b[1..];
      }
    }
  }

  lemma TransitiveEq(a: string, b: string, c: string)
    requires LessEq(a, b) && LessEq(b, c)
    ensures LessEq(a, c)
  {
    if a != b && b != c {
      Transitive(a, b, c);
    }
  }

  /** A proper prefix sorts first. */
  lemma PrefixLess(a: string, b: string)
    requires a <= b && a != b
    ensures Less(a, b)
  {
    if |a| > 0 {
      PrefixLess(a[1..], b[1..]);
    }
  }

  /** Every string sorting between `p` and a string that starts with `p`
      starts with `p` too. */
  lemma {:induction false} BetweenKeepsPrefix(p: string, x: string, y: string)
    requires LessEq(p, x) && LessEq(x, y) && p <= y
    ensures p <= x
    decreases |p|
  {
    if |p| > 0 && x != p && x != y {
      assert |x| > 0 && |y| > 0;
      assert x[0] == p[0];
      BetweenKeepsPrefix(p[1..], x[1..], y[1..]);
      assert x == [x[0]] + x[1..];
    }
  }

  /** Strings that do not start with `p` and sort after `p` stay after every
      string that does: once a sorted scan from `p` leaves the block of strings
      carrying the prefix `p`, it never meets that prefix again. */
  lemma LeavesPrefixBlock(p: string, x: string, y: string)
    requires LessEq(p, x) && !(p <= x) && LessEq(x, y)
    ensures !(p <= y)
  {
    if p <= y {
      BetweenKeepsPrefix(p, x, y);
    }
  }

  /** Two prefixes of one string sort by length. */
  lemma PrefixesByLength(a: string, b: string, s: string)
    requires a <= s && b <= s && Less(a, b)
    ensures |a| < |b| && a <= b
  {
    if |a| > 0 {
      PrefixesByLength(a[1..], b[1..], s[1..]);
    }
  }

  /** A string sorts at or after each of its prefixes. */
  lemma PrefixLessEq(p: string, s: string)
    requires p <= s
    ensures LessEq(p, s)
  {
    if p != s {
      PrefixLess(p, s);
    }
  }
}

/** The elements that satisfy a predicate, in order. */
module Filtering {
  import opened Tally

  function Filter<T>(p: T -> bool, s: seq<T>): seq<T> {
    if s == [] then [] else (if p(s[0]) then [s[0]] else []) + Filter(p, s[1..])
  }

  lemma Associative<T>(a: seq<T>, b: seq<T>, c: seq<T>)
    ensures (a + b) + c == a + (b + c)
  {
  }

  lemma {:induction false} FilterConcat<T>(p: T -> bool, a: seq<T>, b: seq<T>)
    ensures Filter(p, a + b) == Filter(p, a) + Filter(p, b)
  {
    if a == [] {
      assert a + b == b;
    } else {
      var head := if p(a[0]) then [a[0]] else [];
      FilterConcat(p, a[1..], b);
      assert (a + b)[0] == a[0] && (a + b)[1..] == a[1..] + b;
      Associative(head, Filter(p, a[1..]), Filter(p, b));
    }
  }

  /** One more element at the end. */
  lemma FilterNext<T>(p: T -> bool, s: seq<T>, lo: int, hi: int)
    requires 0 <= lo <= hi < |s|
    ensures Filter(p, s[lo..hi + 1]) == Filter(p, s[lo..hi]) + (if p(s[hi]) then [s[hi]] else [])
  {
    assert s[lo..hi + 1] == s[lo..hi] + [s[hi]];
    FilterConcat(p, s[lo..hi], [s[hi]]);
    assert [s[hi]][1..] == [];
  }

  lemma FilterSplit<T>(p: T -> bool, s: seq<T>, lo: int, mid: int, hi: int)
    requires 0 <= lo <= mid <= hi <= |s|
    ensures Filter(p, s[lo..hi]) == Filter(p, s[lo..mid]) + Filter(p, s[mid..hi])
  {
    assert s[lo..hi] == s[lo..mid] + s[mid..hi];
    FilterConcat(p, s[lo..mid], s[mid..hi]);
  }

  /** As many elements are kept as are counted. */
  lemma {:induction false} FilterCount<T>(p: T -> bool, s: seq<T>, lo: int, hi: int)
    requires 0 <= lo <= hi <= |s|
    ensures |Filter(p, s[lo..hi])| == CountTrue(s, p, lo, hi)
    decreases hi - lo
  {
    if lo < hi {
      FilterCount(p, s, lo, hi - 1);
      FilterNext(p, s, lo, hi - 1);
    }
  }

  lemma {:induction false} FilterAll<T>(p: T -> bool, s: seq<T>)
    requires forall i :: 0 <= i < |s| ==> p(s[i])
    ensures Filter(p, s) == s
  {
    if s != [] {
      FilterAll(p, s[1..]);
    }
  }

  lemma {:induction false} FilterNothing<T>(p: T -> bool, s: seq<T>)
    requires forall i :: 0 <= i < |s| ==> !p(s[i])
    ensures Filter(p, s) == []
  {
    if s != [] {
      FilterNothing(p, s[1..]);
    }
  }
}

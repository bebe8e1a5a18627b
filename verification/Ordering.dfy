/** Comparators and sorted sequences. */
module Ordering {

  /** What the algorithms ask of a comparator. */
  ghost predicate StrictWeakOrder<T(!new)>(less: (T, T) -> bool) {
    && (forall x :: !less(x, x))
    && (forall x, y, z {:trigger less(x, y), less(y, z)} :: less(x, y) && less(y, z) ==> less(x, z))
    && (forall x, y, z {:trigger less(x, y), less(y, z)} :: less(x, z) ==> less(x, y) || less(y, z))
  }

  ghost predicate Sorted<T>(less: (T, T) -> bool, s: seq<T>) {
    forall i, j :: 0 <= i < j < |s| ==> !less(s[j], s[i])
  }

  /** No element of y is less than an element of x. */
  ghost predicate NotAbove<T>(less: (T, T) -> bool, x: seq<T>, y: seq<T>) {
    forall i, j :: 0 <= i < |x| && 0 <= j < |y| ==> !less(y[j], x[i])
  }

  lemma SortedConcat<T>(less: (T, T) -> bool, x: seq<T>, y: seq<T>)
    requires Sorted(less, x) && Sorted(less, y) && NotAbove(less, x, y)
    ensures Sorted(less, x + y)
  {
  }

  lemma SortedSlice<T>(less: (T, T) -> bool, s: seq<T>, lo: int, hi: int)
    requires Sorted(less, s) && 0 <= lo <= hi <= |s|
    ensures Sorted(less, s[lo..hi])
  {
  }

  /** Bounds pass to any rearrangement. */
  lemma NotAbovePermuted<T>(less: (T, T) -> bool, x: seq<T>, y: seq<T>, x': seq<T>, y': seq<T>)
    requires NotAbove(less, x, y) && multiset(x') == multiset(x) && multiset(y') == multiset(y)
    ensures NotAbove(less, x', y')
  {
    forall i, j | 0 <= i < |x'| && 0 <= j < |y'|
      ensures !less(y'[j], x'[i])
    {
      assert x'[i] in multiset(x') && y'[j] in multiset(y');
      assert x'[i] in multiset(x) && y'[j] in multiset(y);
      var k :| 0 <= k < |x| && x[k] == x'[i];
      var l :| 0 <= l < |y| && y[l] == y'[j];
    }
  }
}

/** Counting the elements of a sequence range that satisfy a predicate, and sums over a sequence of tasks. */
module Tally {

  /** How many positions of [lo, hi) hold an element that satisfies p; positions outside the sequence count nothing. */
  function CountTrue<T>(a: seq<T>, p: T -> bool, lo: int, hi: int): nat
    decreases hi - lo
  {
    if lo >= hi then 0
    else CountTrue(a, p, lo, hi - 1) + (if 0 <= hi - 1 < |a| && p(a[hi - 1]) then 1 else 0)
  }

  lemma {:induction false} CountTrueSplit<T>(a: seq<T>, p: T -> bool, lo: int, mid: int, hi: int)
    requires lo <= mid <= hi
    ensures CountTrue(a, p, lo, hi) == CountTrue(a, p, lo, mid) + CountTrue(a, p, mid, hi)
    decreases hi - mid
  {
    if mid < hi {
      CountTrueSplit(a, p, lo, mid, hi - 1);
    }
  }

  lemma {:induction false} CountTrueSame<T>(a: seq<T>, b: seq<T>, p: T -> bool, lo: int, hi: int)
    requires |a| == |b|
    requires forall i :: lo <= i < hi && 0 <= i < |a| ==> a[i] == b[i]
    ensures CountTrue(a, p, lo, hi) == CountTrue(b, p, lo, hi)
    decreases hi - lo
  {
    if lo < hi {
      CountTrueSame(a, b, p, lo, hi - 1);
    }
  }

  /** Dropping the first position of a range. */
  lemma CountTrueHead<T>(a: seq<T>, p: T -> bool, lo: int, hi: int)
    requires 0 <= lo < hi <= |a|
    ensures CountTrue(a, p, lo, hi) == CountTrue(a, p, lo + 1, hi) + (if p(a[lo]) then 1 else 0)
  {
    CountTrueSplit(a, p, lo, lo + 1, hi);
    assert CountTrue(a, p, lo, lo) == 0;
  }

  /** Overwriting one position of the range. */
  lemma CountTrueUpdate<T>(a: seq<T>, p: T -> bool, lo: int, hi: int, i: int, x: T)
    requires 0 <= i < |a|
    ensures CountTrue(a[i := x], p, lo, hi) ==
            CountTrue(a, p, lo, hi) + (if lo <= i < hi then (if p(x) then 1 else 0) - (if p(a[i]) then 1 else 0) else 0)
  {
    var b := a[i := x];
    if lo <= i < hi {
      CountTrueSplit(a, p, lo, i, hi);
      CountTrueSplit(b, p, lo, i, hi);
      CountTrueSplit(a, p, i, i + 1, hi);
      CountTrueSplit(b, p, i, i + 1, hi);
      CountTrueSame(a, b, p, lo, i);
      CountTrueSame(a, b, p, i + 1, hi);
      assert CountTrue(a, p, i, i) == 0 && CountTrue(b, p, i, i) == 0;
    } else {
      CountTrueSame(a, b, p, lo, hi);
    }
  }

  /** A range is all true exactly when its count is its length, and all false exactly when its count is zero. */
  lemma {:induction false} CountTrueExtremes<T>(a: seq<T>, p: T -> bool, lo: int, hi: int)
    requires 0 <= lo <= hi <= |a|
    ensures CountTrue(a, p, lo, hi) <= hi - lo
    ensures CountTrue(a, p, lo, hi) == hi - lo <==> forall i :: lo <= i < hi ==> p(a[i])
    ensures CountTrue(a, p, lo, hi) == 0 <==> forall i :: lo <= i < hi ==> !p(a[i])
    decreases hi - lo
  {
    if lo < hi {
      CountTrueExtremes(a, p, lo, hi - 1);
    }
  }

  /** Two elements change places. */
  function Swap<T>(a: seq<T>, i: int, j: int): seq<T>
    requires 0 <= i < |a| && 0 <= j < |a|
  {
    a[i := a[j]][j := a[i]]
  }

  lemma SwapPermutes<T>(a: seq<T>, i: int, j: int)
    requires 0 <= i < |a| && 0 <= j < |a|
    ensures multiset(Swap(a, i, j)) == multiset(a)
  {
  }

  /** Exchanging a false element at i with a true element at j moves one true element from j to i. */
  lemma CountTrueSwap<T>(a: seq<T>, p: T -> bool, lo: int, hi: int, i: int, j: int)
    requires 0 <= i < |a| && 0 <= j < |a| && i != j
    requires !p(a[i]) && p(a[j])
    ensures CountTrue(Swap(a, i, j), p, lo, hi) ==
            CountTrue(a, p, lo, hi) + (if lo <= i < hi then 1 else 0) - (if lo <= j < hi then 1 else 0)
  {
    CountTrueUpdate(a, p, lo, hi, i, a[j]);
    CountTrueUpdate(a[i := a[j]], p, lo, hi, j, a[i]);
  }

  /** The sum of f over the elements of xs. */
  ghost function SumOver<T>(xs: seq<T>, f: T -> int): int {
    if xs == [] then 0 else SumOver(xs[..|xs| - 1], f) + f(xs[|xs| - 1])
  }

  lemma {:induction false} SumUpdate<T>(xs: seq<T>, f: T -> int, t: int, x: T)
    requires 0 <= t < |xs|
    ensures SumOver(xs[t := x], f) == SumOver(xs, f) - f(xs[t]) + f(x)
  {
    var n := |xs| - 1;
    if t == n {
      assert xs[t := x][..n] == xs[..n];
    } else {
      assert xs[t := x][..n] == xs[..n][t := x];
      SumUpdate(xs[..n], f, t, x);
    }
  }

  lemma SumAppend<T>(xs: seq<T>, f: T -> int, x: T)
    ensures SumOver(xs + [x], f) == SumOver(xs, f) + f(x)
  {
  }

  lemma {:induction false} SumSame<T>(xs: seq<T>, f: T -> int, g: T -> int)
    requires forall t :: 0 <= t < |xs| ==> f(xs[t]) == g(xs[t])
    ensures SumOver(xs, f) == SumOver(xs, g)
  {
    if xs != [] {
      SumSame(xs[..|xs| - 1], f, g);
    }
  }

  lemma {:induction false} SumNonNegative<T>(xs: seq<T>, f: T -> int)
    requires forall t :: 0 <= t < |xs| ==> f(xs[t]) >= 0
    ensures SumOver(xs, f) >= 0
    ensures forall t :: 0 <= t < |xs| ==> SumOver(xs, f) >= f(xs[t])
  {
    if xs != [] {
      SumNonNegative(xs[..|xs| - 1], f);
    }
  }

  lemma {:induction false} SumZero<T>(xs: seq<T>, f: T -> int)
    requires forall t :: 0 <= t < |xs| ==> f(xs[t]) == 0
    ensures SumOver(xs, f) == 0
  {
    if xs != [] {
      SumZero(xs[..|xs| - 1], f);
    }
  }

  /** Terms of at most one add up to the number of terms exactly when all of them are one. */
  lemma {:induction false} SumFull<T>(xs: seq<T>, f: T -> int)
    requires forall i :: 0 <= i < |xs| ==> f(xs[i]) <= 1
    ensures SumOver(xs, f) <= |xs|
    ensures SumOver(xs, f) == |xs| <==> forall i :: 0 <= i < |xs| ==> f(xs[i]) == 1
  {
    if xs != [] {
      SumFull(xs[..|xs| - 1], f);
    }
  }

  lemma SwapLast<T>(a: multiset<T>, b: multiset<T>, c: multiset<T>)
    ensures (a + b) + c == (a + c) + b
  {
  }
}

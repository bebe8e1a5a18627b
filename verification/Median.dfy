/** The pivot that partial_sort hands to the partition: a median of three medians of three. */
module Median {
  import opened Tally
  import opened Ordering

  predicate TwoOf(x: bool, y: bool, z: bool) {
    (x && y) || (x && z) || (y && z)
  }

  /** m is one of the three, at least two are not above it and at least two are not below it. */
  predicate IsMedian<T(==)>(less: (T, T) -> bool, a: T, b: T, c: T, m: T) {
    && (m == a || m == b || m == c)
    && TwoOf(!less(m, a), !less(m, b), !less(m, c))
    && TwoOf(!less(a, m), !less(b, m), !less(c, m))
  }

  /** The three conditional exchanges, one after the other. */
  function OrderThree<T>(less: (T, T) -> bool, a: T, b: T, c: T): (T, T, T) {
    var (a1, b1) := if less(b, a) then (b, a) else (a, b);
    var (a2, c1) := if less(c, a1) then (c, a1) else (a1, c);
    var (b2, c2) := if less(c1, b1) then (c1, b1) else (b1, c1);
    (a2, b2, c2)
  }

  lemma OrderThreeSorts<T(!new)>(less: (T, T) -> bool, a: T, b: T, c: T)
    requires StrictWeakOrder(less)
    ensures var (x, y, z) := OrderThree(less, a, b, c);
            !less(y, x) && !less(z, y) && !less(z, x) && multiset{x, y, z} == multiset{a, b, c}
  {
  }

  lemma OrderThreeMedian<T(!new)>(less: (T, T) -> bool, a: T, b: T, c: T)
    requires StrictWeakOrder(less)
    ensures IsMedian(less, a, b, c, OrderThree(less, a, b, c).1)
  {
  }

  /** Orders three elements in place. */
  method MedianOfThree<T>(v: array<T>, less: (T, T) -> bool)
    requires v.Length == 3
    modifies v
    ensures (v[0], v[1], v[2]) == OrderThree(less, old(v[0]), old(v[1]), old(v[2]))
  {
    if less(v[1], v[0]) { v[0], v[1] := v[1], v[0]; }
    if less(v[2], v[0]) { v[0], v[2] := v[2], v[0]; }
    if less(v[2], v[1]) { v[1], v[2] := v[2], v[1]; }
  }

  method MedianOf<T(!new, ==)>(less: (T, T) -> bool, a: T, b: T, c: T) returns (m: T)
    requires StrictWeakOrder(less)
    ensures IsMedian(less, a, b, c, m)
  {
    var temp := new T[] [a, b, c];
    OrderThreeMedian(less, a, b, c);
    MedianOfThree(temp, less);
    m := temp[1];
  }

  function NotAboveP<T>(less: (T, T) -> bool, m: T): T -> bool {
    x => !less(m, x)
  }

  function NotBelowP<T>(less: (T, T) -> bool, m: T): T -> bool {
    x => !less(x, m)
  }

  function BelowP<T>(less: (T, T) -> bool, m: T): T -> bool {
    x => less(x, m)
  }

  lemma {:induction false} CountsOne<T>(s: seq<T>, p: T -> bool, lo: int, hi: int, i: int)
    requires 0 <= lo <= i < hi <= |s| && p(s[i])
    ensures CountTrue(s, p, lo, hi) >= 1
  {
    CountTrueSplit(s, p, lo, i, hi);
    CountTrueHead(s, p, i, hi);
  }

  lemma CountsTwo<T>(s: seq<T>, p: T -> bool, lo: int, hi: int, i: int, j: int, k: int)
    requires 0 <= lo <= i < j < k < hi <= |s| && TwoOf(p(s[i]), p(s[j]), p(s[k]))
    ensures CountTrue(s, p, lo, hi) >= 2
  {
    CountTrueSplit(s, p, lo, j, hi);
    CountTrueSplit(s, p, j, j + 1, hi);
    if p(s[i]) { CountsOne(s, p, lo, j, i); }
    if p(s[j]) { CountsOne(s, p, j, j + 1, j); }
    if p(s[k]) { CountsOne(s, p, j + 1, hi, k); }
  }

  /** What holds of a group's median holds of two members of the group. */
  lemma MedianPasses<T(!new)>(less: (T, T) -> bool, a: T, b: T, c: T, m: T, res: T)
    requires StrictWeakOrder(less) && IsMedian(less, a, b, c, m)
    ensures !less(res, m) ==> TwoOf(!less(res, a), !less(res, b), !less(res, c))
    ensures !less(m, res) ==> TwoOf(!less(a, res), !less(b, res), !less(c, res))
  {
  }

  /** How many elements are certainly on either side of the pivot. */
  function Margin(n: nat): nat {
    if n >= 16 then 4 else if n >= 3 then 2 else if n >= 1 then 1 else 0
  }

  ghost predicate Central<T>(less: (T, T) -> bool, range: seq<T>, m: T) {
    && CountTrue(range, NotAboveP(less, m), 0, |range|) >= Margin(|range|)
    && CountTrue(range, NotBelowP(less, m), 0, |range|) >= Margin(|range|)
  }

  lemma SmallCentral<T(!new)>(less: (T, T) -> bool, s: seq<T>, m: T)
    requires StrictWeakOrder(less) && s != [] && m == s[0] && |s| < 3
    ensures Central(less, s, m)
  {
  }

  lemma ThreeCentral<T>(less: (T, T) -> bool, s: seq<T>, m: T, i: int, j: int, k: int)
    requires 3 <= |s| < 16 && 0 <= i < j < k < |s| && IsMedian(less, s[i], s[j], s[k], m)
    ensures Central(less, s, m)
  {
    CountsTwo(s, NotAboveP(less, m), 0, |s|, i, j, k);
    CountsTwo(s, NotBelowP(less, m), 0, |s|, i, j, k);
  }

  /** One group of three samples of [lo, hi): if its median is not above the result, two of its elements are not; likewise below. */
  lemma GroupCounts<T(!new)>(less: (T, T) -> bool, s: seq<T>, lo: int, hi: int, i: int, j: int, k: int, m: T, res: T)
    requires StrictWeakOrder(less) && 0 <= lo <= i < j < k < hi <= |s| && IsMedian(less, s[i], s[j], s[k], m)
    ensures !less(res, m) ==> CountTrue(s, NotAboveP(less, res), lo, hi) >= 2
    ensures !less(m, res) ==> CountTrue(s, NotBelowP(less, res), lo, hi) >= 2
  {
    MedianPasses(less, s[i], s[j], s[k], m, res);
    if !less(res, m) { CountsTwo(s, NotAboveP(less, res), lo, hi, i, j, k); }
    if !less(m, res) { CountsTwo(s, NotBelowP(less, res), lo, hi, i, j, k); }
  }

  lemma NineCentral<T(!new)>(less: (T, T) -> bool, s: seq<T>, p: seq<int>, m1: T, m2: T, m3: T, res: T)
    requires StrictWeakOrder(less) && |s| >= 16 && |p| == 9
    requires 0 <= p[0] < p[1] < p[2] < p[3] < p[4] < p[5] < p[6] < p[7] < p[8] < |s|
    requires IsMedian(less, s[p[0]], s[p[1]], s[p[2]], m1)
    requires IsMedian(less, s[p[3]], s[p[4]], s[p[5]], m2)
    requires IsMedian(less, s[p[6]], s[p[7]], s[p[8]], m3)
    requires IsMedian(less, m1, m2, m3, res)
    ensures Central(less, s, res)
  {
    GroupCounts(less, s, 0, p[3], p[0], p[1], p[2], m1, res);
    GroupCounts(less, s, p[3], p[6], p[3], p[4], p[5], m2, res);
    GroupCounts(less, s, p[6], |s|, p[6], p[7], p[8], m3, res);
    CountTrueSplit(s, NotAboveP(less, res), 0, p[3], |s|);
    CountTrueSplit(s, NotAboveP(less, res), p[3], p[6], |s|);
    CountTrueSplit(s, NotBelowP(less, res), 0, p[3], |s|);
    CountTrueSplit(s, NotBelowP(less, res), p[3], p[6], |s|);
  }

  /**
    The nine positions sampled from a range of at least sixteen elements. They are all different and spread
    over the whole range: the first five lie an eighth of the length apart, the others mirror the first four.
   */
  function Samples(n: nat): (p: seq<int>)
    requires n >= 16
    ensures |p| == 9 && 0 <= p[0] < p[1] < p[2] < p[3] < p[4] < p[5] < p[6] < p[7] < p[8] < n
    ensures p[0] == 0 && p[8] == n - 1
    ensures forall k :: 0 <= k < 4 ==> p[k + 1] - p[k] == n / 8 && p[8 - k] == n - 1 - p[k]
    ensures forall k :: 0 <= k < 8 ==> n / 8 - 1 <= p[k + 1] - p[k] <= n / 8 + 6
  {
    var o := n / 8;
    [0, o, o * 2, 3 * o, o * 4, n - (3 * o + 1), n - (2 * o + 1), n - (o + 1), n - 1]
  }

  /** m is the median of the medians of three consecutive triples of samples. */
  ghost predicate MedianOfNine<T(!new)>(less: (T, T) -> bool, s: seq<T>, p: seq<int>, m: T)
    requires |p| == 9 && forall k :: 0 <= k < 9 ==> 0 <= p[k] < |s|
  {
    exists m1, m2, m3 ::
      && IsMedian(less, s[p[0]], s[p[1]], s[p[2]], m1)
      && IsMedian(less, s[p[3]], s[p[4]], s[p[5]], m2)
      && IsMedian(less, s[p[6]], s[p[7]], s[p[8]], m3)
      && IsMedian(less, m1, m2, m3, m)
  }

  /**
    The pivot is the first element of a range of one or two, the median of the first, the middle and the last one
    below sixteen, and the median of nine from there on. It always has a fixed number of elements on either side.
   */
  method MedianOfMedians<T(!new, ==)>(range: seq<T>, less: (T, T) -> bool) returns (res: T)
    requires StrictWeakOrder(less) && range != []
    ensures res in range && Central(less, range, res)
    ensures |range| < 3 ==> res == range[0]
    ensures 3 <= |range| < 16 ==> IsMedian(less, range[0], range[|range| / 2], range[|range| - 1], res)
    ensures |range| >= 16 ==>
              var p := Samples(|range|);
              (forall k :: 0 <= k < 9 ==> 0 <= p[k] < |range|) && MedianOfNine(less, range, p, res)
  {
    var dist := |range|;
    if dist < 3 {
      SmallCentral(less, range, range[0]);
      return range[0];
    }
    if dist < 16 {
      var offset := dist / 2;
      res := MedianOf(less, range[0], range[offset], range[dist - 1]);
      ThreeCentral(less, range, res, 0, offset, dist - 1);
      return;
    }
    var p := Samples(dist);
    var m1 := MedianOf(less, range[p[0]], range[p[1]], range[p[2]]);
    var m2 := MedianOf(less, range[p[3]], range[p[4]], range[p[5]]);
    var m3 := MedianOf(less, range[p[6]], range[p[7]], range[p[8]]);
    res := MedianOf(less, m1, m2, m3);
    NineCentral(less, range, p, m1, m2, m3, res);
  }

  lemma {:induction false} CountComplement<T>(s: seq<T>, less: (T, T) -> bool, m: T, lo: int, hi: int)
    requires 0 <= lo <= hi <= |s|
    ensures CountTrue(s, BelowP(less, m), lo, hi) + CountTrue(s, NotBelowP(less, m), lo, hi) == hi - lo
    decreases hi - lo
  {
    if lo < hi { CountComplement(s, less, m, lo, hi - 1); }
  }

  /** A strict partition by such a pivot leaves a first part that is shorter by the margin. */
  lemma PartitionShrinks<T>(s: seq<T>, less: (T, T) -> bool, m: T)
    requires Central(less, s, m)
    ensures CountTrue(s, BelowP(less, m), 0, |s|) <= |s| - Margin(|s|)
    ensures |s| >= 16 ==> CountTrue(s, BelowP(less, m), 0, |s|) <= |s| - 4
    ensures 3 <= |s| ==> CountTrue(s, BelowP(less, m), 0, |s|) <= |s| - 2
    ensures 1 <= |s| ==> CountTrue(s, BelowP(less, m), 0, |s|) < |s|
  {
    CountComplement(s, less, m, 0, |s|);
  }
}

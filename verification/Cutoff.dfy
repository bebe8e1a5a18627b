/** Where a fork-join task cuts its range in two. */
module Cutoff {

  /** Random access iterators are cut in the middle, other iterators after n steps, integers in the middle. */
  datatype Access = RandomAccess | Sequential | Integral

  function SafeAdvance(it: int, n: int, end: int): int {
    if it + n < end then it + n else end
  }

  function FindCutoff(access: Access, it: int, n: int, end: int): int
    requires it <= end
  {
    match access
    case RandomAccess => if end - it <= n then end else it + (end - it) / 2
    case Sequential => if n <= 0 then it else SafeAdvance(it, n, end)
    case Integral =>
      var n' := if n == 1 then 2 else n;
      if it + n' < end then it + (end - it) / 2 else end
  }

  /** Both halves of a nonempty range are smaller than the range itself. */
  predicate Splits(access: Access, n: int, it: int, end: int)
    requires it <= end
  {
    it < FindCutoff(access, it, n, end) <= end
  }

  /**
    A cutoff makes every recursion on nonempty ranges end exactly when it is positive. Otherwise no nonempty
    range is ever a leaf: each task posts a second subtask that is nonempty again.
   */
  lemma PositiveCutoff(access: Access, n: int)
    ensures n >= 1 <==> forall it, end | it < end :: Splits(access, n, it, end)
    ensures n < 1 ==> forall it, end | it < end :: FindCutoff(access, it, n, end) < end
  {
    if n <= 0 {
      assert !Splits(access, n, 0, 1);
    }
  }

  // ----- Where the cut is -----

  /** What std::advance is limited to: the nearer one of it + n and the end. */
  lemma AdvanceStops(it: int, n: int, end: int)
    ensures SafeAdvance(it, n, end) <= it + n && SafeAdvance(it, n, end) <= end
    ensures SafeAdvance(it, n, end) == it + n || SafeAdvance(it, n, end) == end
  {
  }

  /** Other iterators are advanced step by step; a negative n does not move them. */
  method AdvanceByStep(it: int, n: int, end: int) returns (res: int)
    requires it <= end
    ensures n >= 0 ==> res == SafeAdvance(it, n, end)
    ensures n < 0 ==> res == it
  {
    res := it;
    var left := n - 1;
    while res != end && left >= 0
      invariant it <= res <= end && left == n - 1 - (res - it) && (res > it ==> left >= -1)
      decreases end - res
    {
      res := res + 1;
      left := left - 1;
    }
  }

  /** The two parts of a cut in the middle: the second one is longer by at most one element. */
  predicate InTheMiddle(it: int, cut: int, end: int) {
    0 <= (end - cut) - (cut - it) <= 1
  }

  /** Random access: a range is a leaf exactly when it has at most n elements, otherwise it is cut in the middle. */
  lemma RandomAccessCut(it: int, n: int, end: int)
    requires it < end
    ensures var cut := FindCutoff(RandomAccess, it, n, end);
            && (cut == end <==> end - it <= n)
            && (end - it > n ==> InTheMiddle(it, cut, end))
  {
  }

  /** Sequential iterators: the first part has n elements, or all there are. */
  lemma SequentialCut(it: int, n: int, end: int)
    requires it <= end
    ensures var first := FindCutoff(Sequential, it, n, end) - it;
            && (n <= 0 ==> first == 0)
            && (n >= 0 ==> first <= n && first <= end - it && (first == n || first == end - it))
  {
  }

  /** Integers: as for random access, but a cutoff of 1 counts as 2. */
  lemma IntegralCut(it: int, n: int, end: int)
    requires it < end
    ensures var cut := FindCutoff(Integral, it, n, end);
            && (cut == end <==> end - it <= if n == 1 then 2 else n)
            && (cut != end ==> InTheMiddle(it, cut, end))
  {
  }

  /** The lengths of the leaves of a whole recursion, from left to right. */
  ghost function Leaves(access: Access, n: int, it: int, end: int): seq<int>
    requires n >= 1 && it <= end
    decreases end - it
  {
    var cut := FindCutoff(access, it, n, end);
    if cut == end then [end - it] else Leaves(access, n, it, cut) + Leaves(access, n, cut, end)
  }

  ghost function Sum(xs: seq<int>): int {
    if xs == [] then 0 else Sum(xs[..|xs| - 1]) + xs[|xs| - 1]
  }

  lemma {:induction false} SumConcat(a: seq<int>, b: seq<int>)
    ensures Sum(a + b) == Sum(a) + Sum(b)
    decreases |b|
  {
    if b == [] {
      assert a + b == a;
    } else {
      assert (a + b)[..|a + b| - 1] == a + b[..|b| - 1];
      SumConcat(a, b[..|b| - 1]);
    }
  }

  /** The leaves cover the range, none has more elements than the cutoff allows. */
  lemma {:induction false} LeavesTile(access: Access, n: int, it: int, end: int)
    requires n >= 1 && it <= end
    ensures Sum(Leaves(access, n, it, end)) == end - it
    ensures forall x :: x in Leaves(access, n, it, end) ==> 0 <= x <= if access.Integral? && n == 1 then 2 else n
    decreases end - it
  {
    var cut := FindCutoff(access, it, n, end);
    if cut == end {
      assert [end - it][..0] == [];
    } else {
      LeavesTile(access, n, it, cut);
      LeavesTile(access, n, cut, end);
      SumConcat(Leaves(access, n, it, cut), Leaves(access, n, cut, end));
    }
  }

  /** With random access a range that is cut at all has no leaf of less than half the cutoff. */
  lemma {:induction false} LeavesAreHalfFull(n: int, it: int, end: int)
    requires n >= 1 && end - it > n
    ensures forall x :: x in Leaves(RandomAccess, n, it, end) ==> (n + 1) / 2 <= x <= n
    decreases end - it
  {
    var cut := FindCutoff(RandomAccess, it, n, end);
    if cut - it > n {
      LeavesAreHalfFull(n, it, cut);
    }
    if end - cut > n {
      LeavesAreHalfFull(n, cut, end);
    }
  }

  /** With sequential iterators all leaves but the last have exactly as many elements as the cutoff. */
  lemma {:induction false} LeavesAreFull(n: int, it: int, end: int)
    requires n >= 1 && it <= end
    ensures var leaves := Leaves(Sequential, n, it, end);
            |leaves| > 0 && forall k :: 0 <= k < |leaves| - 1 ==> leaves[k] == n
    decreases end - it
  {
    var cut := FindCutoff(Sequential, it, n, end);
    if cut != end {
      var first := Leaves(Sequential, n, it, cut);
      assert first == [n];
      LeavesAreFull(n, cut, end);
    }
  }
}

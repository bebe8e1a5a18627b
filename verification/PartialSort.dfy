/** parallel_partial_sort: partition by a pivot again and again, until a budget is used up and the rest is sorted. */
module PartialSort {
  import opened Tally
  import opened Ordering
  import opened Median
  import opened Grouping
  import opened PartitionRuns
  import opened ParallelPartition
  import opened ParallelSort

  /** Conversion to a 64-bit size_t. */
  function ToSize(x: int): nat {
    x % 0x1_0000_0000_0000_0000
  }

  /** What a task does once the range is partitioned at res. All positions are distances from the start of the range. */
  datatype Decision = SortFront | Again(end: int, sizeAll: int)

  /** How far behind the middle element a split may lie to be close enough. */
  function Tolerance(originalSize: nat): nat {
    ToSize(20 * originalSize) / 100
  }

  /** That is a fifth of the original size, unless the product does not fit a size_t. */
  lemma ToleranceIsFifth(originalSize: nat)
    requires 20 * originalSize < 0x1_0000_0000_0000_0000
    ensures 5 * Tolerance(originalSize) <= originalSize < 5 * Tolerance(originalSize) + 5
  {
  }

  /** The split fell behind the middle element, and the difference the wrong way round is within the tolerance. */
  predicate CloseEnough(distRes: int, distMiddle: int, originalSize: nat) {
    distRes > distMiddle && ToSize(distMiddle - distRes) < Tolerance(originalSize)
  }

  function Decide(sizeAll: int, originalSize: nat, distRes: int, distMiddle: int, distEnd: int): Decision {
    if CloseEnough(distRes, distMiddle, originalSize) then SortFront
    else if distRes >= distMiddle then Again(distRes, sizeAll + distRes)
    else Again(distEnd, sizeAll + distEnd)
  }

  /**
    The difference is taken the wrong way round: it is negative, and as a size_t it is larger than any
    fifth of a size. For no range that fits in memory does a task stop early to sort the front.
   */
  lemma NeverCloseEnough(sizeAll: int, originalSize: nat, distRes: int, distMiddle: int, distEnd: int)
    requires 0 <= distMiddle && distRes <= distEnd <= originalSize < 0x8000_0000_0000_0000
    ensures Decide(sizeAll, originalSize, distRes, distMiddle, distEnd).Again?
  {
  }

  /**
    Every further call uses some of the budget exactly when there is at least one element to be put in
    front; with middle == beg the range can become empty and the task posts itself again for ever.
   */
  lemma BudgetShrinks(originalSize: nat, distMiddle: int, distEnd: int)
    requires 0 <= distMiddle <= distEnd <= originalSize < 0x8000_0000_0000_0000
    ensures distMiddle > 0 <==> forall sizeAll, distRes | 0 <= distRes <= distEnd ::
              var d := Decide(sizeAll, originalSize, distRes, distMiddle, distEnd);
              d.Again? ==> sizeAll < d.sizeAll && distMiddle <= d.end <= distEnd
  {
    if distMiddle == 0 {
      assert Decide(0, originalSize, 0, 0, distEnd) == Again(0, 0);
    }
  }

  /** A further call gets the part before the split exactly when the whole front lies in it, and pays for what it gets. */
  lemma NarrowsExactly(sizeAll: int, originalSize: nat, distRes: int, distMiddle: int, distEnd: int)
    requires 0 <= distMiddle && 0 <= distRes < distEnd <= originalSize < 0x8000_0000_0000_0000
    ensures var d := Decide(sizeAll, originalSize, distRes, distMiddle, distEnd);
            && d.Again? && (d.end == distRes || d.end == distEnd) && d.sizeAll == sizeAll + d.end
            && (d.end == distRes <==> distMiddle <= distRes)
  {
  }

  /**
    Such a range: with middle == beg and elements that are all equivalent, the first partition puts nothing
    in front, the next call gets the empty range, and so does every later one, with the budget unchanged.
   */
  lemma EquivalentElementsStall<T>(less: (T, T) -> bool, s: seq<T>, pivot: T)
    requires Equivalent(less, s) && pivot in s
    ensures CountTrue(s, BelowP(less, pivot), 0, |s|) == 0
    ensures Decide(0, |s|, 0, 0, |s|) == Again(0, 0) && Decide(0, |s|, 0, 0, 0) == Again(0, 0)
  {
    var k :| 0 <= k < |s| && s[k] == pivot;
    forall i | 0 <= i < |s|
      ensures !BelowP(less, pivot)(s[i])
    {
      assert !less(s[i], s[k]);
    }
    CountTrueExtremes(s, BelowP(less, pivot), 0, |s|);
  }

  // ----- What a call leaves behind -----

  /** The range is permuted and nothing else is touched. */
  ghost predicate Rearranges<T>(now: seq<T>, before: seq<T>, beg: int, end: int) {
    && 0 <= beg <= end <= |before| == |now|
    && now[..beg] == before[..beg] && now[end..] == before[end..]
    && multiset(now[beg..end]) == multiset(before[beg..end])
  }

  /** The smallest elements of the range are sorted in front. */
  ghost predicate PartialSorted<T>(less: (T, T) -> bool, now: seq<T>, before: seq<T>, beg: int, middle: int, end: int) {
    && Rearranges(now, before, beg, end) && beg <= middle <= end
    && Sorted(less, now[beg..middle]) && NotAbove(less, now[beg..middle], now[middle..end])
  }

  /** The range is split at res by the pivot. */
  ghost predicate SplitBy<T>(less: (T, T) -> bool, s: seq<T>, beg: int, res: int, end: int, pivot: T) {
    && 0 <= beg <= res <= end <= |s|
    && (forall i :: beg <= i < res ==> less(s[i], pivot))
    && (forall i :: res <= i < end ==> !less(s[i], pivot))
  }

  lemma RearrangesTwice<T>(s2: seq<T>, s1: seq<T>, s0: seq<T>, beg: int, end: int)
    requires Rearranges(s2, s1, beg, end) && Rearranges(s1, s0, beg, end)
    ensures Rearranges(s2, s0, beg, end)
  {
  }

  lemma RearrangesWider<T>(now: seq<T>, before: seq<T>, beg: int, res: int, end: int)
    requires Rearranges(now, before, beg, res) && res <= end <= |now|
    ensures Rearranges(now, before, beg, end) && now[res..end] == before[res..end]
  {
    assert now[res..end] == now[res..][..end - res] && before[res..end] == before[res..][..end - res];
    assert now[beg..end] == now[beg..res] + now[res..end] && before[beg..end] == before[beg..res] + before[res..end];
    assert now[end..] == now[res..][end - res..] && before[end..] == before[res..][end - res..];
  }

  /** A sorted range is sorted up to any middle. */
  lemma SortedIsPartial<T>(less: (T, T) -> bool, now: seq<T>, before: seq<T>, beg: int, middle: int, end: int)
    requires SortsRange(less, now, before, beg, end) && beg <= middle <= end
    ensures PartialSorted(less, now, before, beg, middle, end)
  {
    var s := now[beg..end];
    assert now[beg..middle] == s[..middle - beg] && now[middle..end] == s[middle - beg..];
  }

  lemma BelowSplits<T(!new)>(less: (T, T) -> bool, x: seq<T>, y: seq<T>, pivot: T)
    requires StrictWeakOrder(less)
    requires (forall v :: v in x ==> less(v, pivot)) && (forall v :: v in y ==> !less(v, pivot))
    ensures NotAbove(less, x, y)
  {
    forall i, j | 0 <= i < |x| && 0 <= j < |y|
      ensures !less(y[j], x[i])
    {
      assert x[i] in x && y[j] in y;
      assert less(x[i], pivot) && !less(y[j], pivot);
    }
  }

  lemma SplitElements<T>(less: (T, T) -> bool, s: seq<T>, beg: int, res: int, end: int, pivot: T)
    requires SplitBy(less, s, beg, res, end, pivot)
    ensures forall v :: v in s[beg..res] ==> less(v, pivot)
    ensures forall v :: v in s[res..end] ==> !less(v, pivot)
  {
  }

  lemma SameElements<T>(s: seq<T>, t: seq<T>)
    requires multiset(s) == multiset(t)
    ensures forall v :: v in s <==> v in t
  {
    forall v
      ensures v in s <==> v in t
    {
      assert v in s <==> v in multiset(s);
      assert v in t <==> v in multiset(t);
    }
  }

  /** What is behind the split is not below the front either. */
  lemma FrontBelowRest<T(!new)>(less: (T, T) -> bool, s: seq<T>, s1: seq<T>, beg: int, middle: int, res: int, end: int, pivot: T)
    requires 0 <= beg <= middle <= res <= end <= |s| == |s1|
    requires StrictWeakOrder(less) && SplitBy(less, s1, beg, res, end, pivot)
    requires multiset(s[beg..res]) == multiset(s1[beg..res]) && s[res..end] == s1[res..end]
    requires NotAbove(less, s[beg..middle], s[middle..res])
    ensures NotAbove(less, s[beg..middle], s[middle..end])
  {
    hide StrictWeakOrder, NotAbove, SplitBy;
    SplitElements(less, s1, beg, res, end, pivot);
    SameElements(s[beg..res], s1[beg..res]);
    assert s[beg..res] == s[beg..middle] + s[middle..res];
    assert forall v :: v in s[beg..middle] ==> v in s[beg..res];
    BelowSplits(less, s[beg..middle], s[res..end], pivot);
    NotAboveBoth(less, s[beg..middle], s[middle..res], s[res..end]);
    assert s[middle..end] == s[middle..res] + s[res..end];
  }

  /** Solving the part before res solves the whole range. */
  lemma FrontSuffices<T(!new)>(less: (T, T) -> bool, s2: seq<T>, s1: seq<T>, s0: seq<T>, beg: int, middle: int, res: int, end: int, pivot: T)
    requires StrictWeakOrder(less) && Rearranges(s1, s0, beg, end) && SplitBy(less, s1, beg, res, end, pivot)
    requires PartialSorted(less, s2, s1, beg, middle, res)
    ensures PartialSorted(less, s2, s0, beg, middle, end)
  {
    hide StrictWeakOrder, Sorted, NotAbove, SplitBy;
    SplitRange(less, s1, beg, res, end, pivot);
    RearrangesWider(s2, s1, beg, res, end);
    RearrangesTwice(s2, s1, s0, beg, end);
    FrontBelowRest(less, s2, s1, beg, middle, res, end, pivot);
  }

  lemma SplitRange<T>(less: (T, T) -> bool, s: seq<T>, beg: int, res: int, end: int, pivot: T)
    requires SplitBy(less, s, beg, res, end, pivot)
    ensures 0 <= beg <= res <= end <= |s|
  {
  }

  lemma NotAboveBoth<T>(less: (T, T) -> bool, x: seq<T>, y: seq<T>, z: seq<T>)
    requires NotAbove(less, x, y) && NotAbove(less, x, z)
    ensures NotAbove(less, x, y + z)
  {
  }

  // ----- The recursion -----

  /** parallel_partition can deal with every range a task may hand to it: none is shorter than the part to be sorted. */
  ghost predicate FitsBetween(shortest: nat, n: nat, threadNum: int) {
    forall m: nat :: shortest <= m <= n ==> Fits(m, threadNum)
  }

  lemma UsualRangesFit(shortest: nat, n: nat, threadNum: int)
    requires n < 0x8000_0000 && 0 <= threadNum <= 1000
    ensures FitsBetween(shortest, n, threadNum)
  {
    forall m: nat | shortest <= m <= n
      ensures Fits(m, threadNum)
    {
      UsualSizesFit(m, threadNum);
    }
  }

  lemma FitsIsShort(n: nat, threadNum: int)
    requires Fits(n, threadNum)
    ensures n < 0x8000_0000
  {
  }

  /** parallel_partition on part of the array. */
  method PartitionRange<T(!new)>(a: array<T>, beg: nat, end: nat, less: (T, T) -> bool, pivot: T, threadNum: int) returns (res: nat)
    requires beg <= end <= a.Length && Fits(end - beg, threadNum)
    modifies a
    ensures SplitBy(less, a[..], beg, res, end, pivot) && Rearranges(a[..], old(a[..]), beg, end)
    ensures res - beg == CountTrue(old(a[beg..end]), BelowP(less, pivot), 0, end - beg)
  {
    hide CountTrue, Fits;
    var p := BelowP(less, pivot);
    var part := new T[end - beg](i requires 0 <= i < end - beg reads a => a[beg + i]);
    assert part[..] == a[beg..end];
    var split := Partition(part, p, threadNum);
    WriteRange(a, beg, part[..]);
    BlitParts(old(a[..]), beg, part[..]);
    res := beg + split;
    assert a[beg..end] == part[..] && old(a[..])[beg..end] == old(a[beg..end]);
    forall i | beg <= i < end
      ensures less(a[i], pivot) <==> i < res
    {
      assert a[i] == part[i - beg] && p(part[i - beg]) == less(a[i], pivot);
    }
  }

  /** The partition by the pivot that the range itself offers. */
  method PartitionByPivot<T(!new, ==)>(a: array<T>, beg: nat, end: nat, less: (T, T) -> bool, threadNum: int) returns (res: nat, ghost pivot: T)
    requires StrictWeakOrder(less) && beg < end <= a.Length && Fits(end - beg, threadNum)
    modifies a
    ensures SplitBy(less, a[..], beg, res, end, pivot) && Rearranges(a[..], old(a[..]), beg, end) && beg <= res <= end
    ensures pivot in old(a[beg..end]) && Central(less, old(a[beg..end]), pivot)
  {
    hide StrictWeakOrder, Rearranges, SplitBy, Fits, Central, IsMedian, MedianOfNine, Samples, CountTrue;
    var value := MedianOfMedians(a[beg..end], less);
    pivot := value;
    res := PartitionRange(a, beg, end, less, value, threadNum);
    SplitRange(less, a[..], beg, res, end, value);
  }

  method SortRange<T(!new)>(a: array<T>, beg: nat, end: nat, less: (T, T) -> bool, cutoff: int)
    requires StrictWeakOrder(less) && cutoff >= 1 && beg <= end <= a.Length
    modifies a
    ensures SortsRange(less, a[..], old(a[..]), beg, end)
  {
    Sort(a, beg, end, less, cutoff);
  }

  /**
    One task and everything it posts. The lengths handed to parallel_partition are added up in handed:
    sizeAll holds what was handed to it since the first call.
   */
  method PartialSortTask<T(!new, ==)>(a: array<T>, beg: nat, middle: nat, end: nat, less: (T, T) -> bool,
                                      sizeAll: nat, originalSize: nat, cutoff: int, threadNum: int) returns (ghost handed: nat)
    requires StrictWeakOrder(less) && cutoff >= 1
    requires beg < middle <= end <= a.Length && end - beg <= originalSize && FitsBetween(middle - beg, originalSize, threadNum)
    modifies a
    ensures PartialSorted(less, a[..], old(a[..]), beg, middle, end)
    ensures handed <= if sizeAll > 4 * originalSize then 0 else end - beg + 4 * originalSize - sizeAll
    ensures sizeAll <= 4 * originalSize ==> handed > 4 * originalSize - sizeAll
    decreases if sizeAll > 4 * originalSize then 0 else 4 * originalSize - sizeAll + 1
  {
    hide StrictWeakOrder, PartialSorted, SortsRange, Rearranges, SplitBy, Fits, CountTrue, Central;
    handed := 0;
    if sizeAll > 4 * originalSize {
      SortRange(a, beg, end, less, cutoff);
      SortedIsPartial(less, a[..], old(a[..]), beg, middle, end);
      return;
    }
    ghost var pivot;
    var res;
    res, pivot := PartitionByPivot(a, beg, end, less, threadNum);
    ghost var split := a[..];
    handed := end - beg;
    assert Fits(originalSize, threadNum);
    FitsIsShort(originalSize, threadNum);
    match Decide(sizeAll, originalSize, res - beg, middle - beg, end - beg)
    case SortFront =>
      SortRange(a, beg, res, less, cutoff);
      SortedIsPartial(less, a[..], split, beg, middle, res);
      FrontSuffices(less, a[..], split, old(a[..]), beg, middle, res, end, pivot);
      NeverCloseEnough(sizeAll, originalSize, res - beg, middle - beg, end - beg);
    case Again(newEnd, newSize) =>
      ghost var more := PartialSortTask(a, beg, middle, beg + newEnd, less, newSize, originalSize, cutoff, threadNum);
      handed := handed + more;
      if res >= middle {
        FrontSuffices(less, a[..], split, old(a[..]), beg, middle, res, end, pivot);
      } else {
        WholeAgain(less, a[..], split, old(a[..]), beg, middle, end);
      }
  }

  lemma WholeAgain<T>(less: (T, T) -> bool, s2: seq<T>, s1: seq<T>, s0: seq<T>, beg: int, middle: int, end: int)
    requires Rearranges(s1, s0, beg, end) && PartialSorted(less, s2, s1, beg, middle, end)
    ensures PartialSorted(less, s2, s0, beg, middle, end)
  {
  }

  /**
    Main result: it ends and sorts the smallest elements in front. It hands more than four and at most five
    times the original length to parallel_partition, because nothing but the budget ever stops it.
   */
  method ParallelPartialSort<T(!new, ==)>(a: array<T>, beg: nat, middle: nat, end: nat, less: (T, T) -> bool, cutoff: int, threadNum: int)
    returns (ghost handed: nat)
    requires StrictWeakOrder(less) && cutoff >= 1 && beg < middle <= end <= a.Length && FitsBetween(middle - beg, end - beg, threadNum)
    modifies a
    ensures PartialSorted(less, a[..], old(a[..]), beg, middle, end)
    ensures 4 * (end - beg) < handed <= 5 * (end - beg)
  {
    handed := PartialSortTask(a, beg, middle, end, less, 0, end - beg, cutoff, threadNum);
  }
}

/** parallel_kmp: the haystack is cut into chunks that overlap by one element less than the needle has. */
module ParallelKmp {
  import opened Cutoff
  import opened KmpTable
  import opened KmpMatcher

  /** What the search does with a functor: call it with an index, merge it with another one. */
  datatype FunctorOps<!F> = FunctorOps(call: (F, int) -> F, merge: (F, F) -> F)

  /** Reports of two parts that both started from the given functor can be merged into the report of the whole. */
  ghost predicate Mergeable<F(!new)>(ops: FunctorOps<F>, functor: F) {
    forall xs: seq<int>, ys: seq<int> ::
      ops.merge(Report(ops.call, functor, xs), Report(ops.call, functor, ys)) == Report(ops.call, functor, xs + ys)
  }

  lemma {:induction false} OccurrencesShift<T>(whole: seq<T>, part: seq<T>, needle: seq<T>, base: int, from: int, lo: int, hi: int)
    requires 0 <= from <= |whole|
    requires forall i :: lo <= i < hi ==> (Occurs(part, needle, i) <==> Occurs(whole, needle, from + i))
    ensures Occurrences(part, needle, base + from, lo, hi) == Occurrences(whole, needle, base, from + lo, from + hi)
    decreases hi - lo
  {
    if lo < hi {
      OccurrencesShift(whole, part, needle, base, from, lo, hi - 1);
      assert Occurs(part, needle, hi - 1) <==> Occurs(whole, needle, from + (hi - 1));
    }
  }

  lemma OccursInSlice<T>(whole: seq<T>, needle: seq<T>, from: int, to: int, i: int)
    requires 0 <= from <= to <= |whole| && 0 <= i
    ensures Occurs(whole[from..to], needle, i) <==> Occurs(whole, needle, from + i) && from + i + |needle| <= to
  {
    if i + |needle| <= to - from {
      var x, y := whole[from..to][i..i + |needle|], whole[from + i..from + i + |needle|];
      assert |x| == |y| && forall d :: 0 <= d < |x| ==> x[d] == y[d];
    }
  }

  lemma LeftChunk<T>(chunk: seq<T>, needle: seq<T>, base: int, middle: int, padded: int)
    requires needle != [] && 0 <= middle && padded == middle + |needle| - 1 && padded <= |chunk|
    ensures AllOccurrences(chunk[..padded], needle, base) == Occurrences(chunk, needle, base, 0, middle)
  {
    hide Occurs, Occurrences;
    var left := chunk[..padded];
    assert left == chunk[0..padded];
    OccurrencesSplit(left, needle, base, 0, middle, padded);
    forall i | 0 <= i < |left|
      ensures i < middle ==> (Occurs(left, needle, i) <==> Occurs(chunk, needle, 0 + i))
      ensures middle <= i ==> !Occurs(left, needle, i)
    {
      OccursInSlice(chunk, needle, 0, padded, i);
    }
    OccurrencesNone(left, needle, base, middle, padded);
    OccurrencesShift(chunk, left, needle, base, 0, 0, middle);
    assert Occurrences(left, needle, base, 0, middle) + [] == Occurrences(left, needle, base, 0, middle);
  }

  lemma RightChunk<T>(chunk: seq<T>, needle: seq<T>, base: int, middle: int)
    requires 0 <= middle <= |chunk|
    ensures AllOccurrences(chunk[middle..], needle, base + middle) == Occurrences(chunk, needle, base, middle, |chunk|)
  {
    hide Occurrences;
    var right := chunk[middle..];
    assert right == chunk[middle..|chunk|];
    forall i | 0 <= i < |right|
      ensures Occurs(right, needle, i) <==> Occurs(chunk, needle, middle + i)
    {
      OccursInSlice(chunk, needle, middle, |chunk|, i);
    }
    OccurrencesShift(chunk, right, needle, base, middle, 0, |right|);
  }

  /**
    Every occurrence lies in exactly one of two chunks that overlap by |needle| - 1 elements: in the
    first one when it starts before middle, in the second one otherwise.
   */
  lemma ChunksCover<T>(chunk: seq<T>, needle: seq<T>, base: int, middle: int, padded: int)
    requires needle != [] && 0 <= middle && padded == middle + |needle| - 1 && padded <= |chunk|
    ensures AllOccurrences(chunk, needle, base)
            == AllOccurrences(chunk[..padded], needle, base) + AllOccurrences(chunk[middle..], needle, base + middle)
  {
    hide Occurs, Occurrences;
    OccurrencesSplit(chunk, needle, base, 0, middle, |chunk|);
    LeftChunk(chunk, needle, base, middle, padded);
    RightChunk(chunk, needle, base, middle);
  }

  /** The recursion ends: always with a positive cutoff, and for needles of two or more elements with random access. */
  predicate Ends(access: Access, cutoff: int, needleSize: nat) {
    !access.Integral? && (cutoff >= 1 || (access.RandomAccess? && needleSize >= 2))
  }

  /** A task either is a leaf, or both its subtasks search shorter chunks. */
  predicate ChunksShrink(access: Access, cutoff: int, needleSize: nat, first: int, last: int)
    requires first <= last
  {
    var middle := FindCutoff(access, first, cutoff, last);
    var padded := SafeAdvance(middle, needleSize - 1, last);
    padded == last || (padded < last && first < middle)
  }

  /** Otherwise some task posts itself again as its second subtask. */
  lemma EndsExactly(access: Access, cutoff: int, needleSize: nat)
    requires !access.Integral? && needleSize > 0
    ensures Ends(access, cutoff, needleSize) <==>
            forall first, last | first <= last :: ChunksShrink(access, cutoff, needleSize, first, last)
  {
    if !Ends(access, cutoff, needleSize) {
      assert !ChunksShrink(access, cutoff, needleSize, 0, needleSize);
    }
  }

  /** What one task makes of its functor: every leaf reports to its own copy, and joins merge the right copy into the left one. */
  ghost function Searched<T, F>(haystack: seq<T>, first: nat, last: nat, needle: seq<T>, ops: FunctorOps<F>, functor: F, offset: int,
                                access: Access, cutoff: int): F
    requires first <= last <= |haystack| && needle != [] && Ends(access, cutoff, |needle|)
    decreases last - first
  {
    var middle := FindCutoff(access, first, cutoff, last);
    var padded := SafeAdvance(middle, |needle| - 1, last);
    if padded == last then Report(ops.call, functor, AllOccurrences(haystack[first..last], needle, offset))
    else ops.merge(Searched(haystack, first, padded, needle, ops, functor, offset, access, cutoff),
                   Searched(haystack, middle, last, needle, ops, functor, offset + (middle - first), access, cutoff))
  }

  /** How many leaves the recursion has. */
  ghost function LeafCount(first: nat, last: nat, needleSize: nat, access: Access, cutoff: int): nat
    requires first <= last && needleSize > 0 && Ends(access, cutoff, needleSize)
    decreases last - first
  {
    var middle := FindCutoff(access, first, cutoff, last);
    var padded := SafeAdvance(middle, needleSize - 1, last);
    if padded == last then 1
    else LeafCount(first, padded, needleSize, access, cutoff) + LeafCount(middle, last, needleSize, access, cutoff)
  }

  lemma CutChunk<T>(haystack: seq<T>, first: nat, middle: nat, padded: nat, last: nat, needle: seq<T>, offset: int)
    requires needle != [] && first <= middle && padded == middle + |needle| - 1 && padded <= last <= |haystack|
    ensures AllOccurrences(haystack[first..last], needle, offset)
            == AllOccurrences(haystack[first..padded], needle, offset) + AllOccurrences(haystack[middle..last], needle, offset + (middle - first))
  {
    hide AllOccurrences;
    var chunk := haystack[first..last];
    assert haystack[first..padded] == chunk[..padded - first] && haystack[middle..last] == chunk[middle - first..];
    ChunksCover(chunk, needle, offset, middle - first, padded - first);
  }

  /** With a functor that can be merged, the copies together see every occurrence once and in order. */
  lemma {:induction false} MergeableSearch<T, F(!new)>(haystack: seq<T>, first: nat, last: nat, needle: seq<T>, ops: FunctorOps<F>, functor: F,
                                                       offset: int, access: Access, cutoff: int)
    requires first <= last <= |haystack| && needle != [] && Ends(access, cutoff, |needle|) && Mergeable(ops, functor)
    ensures Searched(haystack, first, last, needle, ops, functor, offset, access, cutoff)
            == Report(ops.call, functor, AllOccurrences(haystack[first..last], needle, offset))
    decreases last - first
  {
    hide Report, AllOccurrences;
    var middle := FindCutoff(access, first, cutoff, last);
    var padded := SafeAdvance(middle, |needle| - 1, last);
    if padded != last {
      MergeableSearch(haystack, first, padded, needle, ops, functor, offset, access, cutoff);
      MergeableSearch(haystack, middle, last, needle, ops, functor, offset + (middle - first), access, cutoff);
      CutChunk(haystack, first, middle, padded, last, needle, offset);
    }
  }

  /** One task of the recursion; its two subtasks do not share any state, so their order does not matter. */
  method Search<T(==), F(!new)>(haystack: seq<T>, first: nat, last: nat, needle: seq<T>, table: array<int>,
                                ops: FunctorOps<F>, functor: F, offset: int, access: Access, cutoff: int)
    returns (result: F)
    requires first <= last <= |haystack| && Ends(access, cutoff, |needle|)
    requires needle != [] ==> IsTable(needle, table[..])
    ensures needle == [] ==> result == functor
    ensures needle != [] ==> result == Searched(haystack, first, last, needle, ops, functor, offset, access, cutoff)
    ensures needle != [] && SafeAdvance(FindCutoff(access, first, cutoff, last), |needle| - 1, last) == last ==>
              result == Report(ops.call, functor, AllOccurrences(haystack[first..last], needle, offset))
    ensures needle != [] && Mergeable(ops, functor) ==>
              result == Report(ops.call, functor, AllOccurrences(haystack[first..last], needle, offset))
    decreases last - first
  {
    hide IsTable, Report, AllOccurrences, Mergeable;
    if |needle| <= 0 { return functor; }
    var middle := FindCutoff(access, first, cutoff, last);
    var padded := SafeAdvance(middle, |needle| - 1, last);
    if padded == last {
      ghost var comparisons;
      result, comparisons := Match(needle, table, haystack[first..padded], offset, ops.call, functor);
    } else {
      var middleOffset := offset + (middle - first);
      var left, right;
      if * {
        left := Search(haystack, first, padded, needle, table, ops, functor, offset, access, cutoff);
        right := Search(haystack, middle, last, needle, table, ops, functor, middleOffset, access, cutoff);
      } else {
        right := Search(haystack, middle, last, needle, table, ops, functor, middleOffset, access, cutoff);
        left := Search(haystack, first, padded, needle, table, ops, functor, offset, access, cutoff);
      }
      result := ops.merge(left, right);
      if Mergeable(ops, functor) {
        MergeableSearch(haystack, first, last, needle, ops, functor, offset, access, cutoff);
      }
    }
  }

  /**
    The whole search. A haystack that is searched in one piece is reported to the functor itself, whatever
    functor it is; one that can be merged sees exactly the occurrences of the needle, once each and in order,
    in any case.
   */
  method Kmp<T(==), F(!new)>(haystack: seq<T>, needle: seq<T>, ops: FunctorOps<F>, functor: F, access: Access, cutoff: int)
    returns (result: F)
    requires Ends(access, cutoff, |needle|)
    ensures needle == [] ==> result == functor
    ensures needle != [] ==> result == Searched(haystack, 0, |haystack|, needle, ops, functor, 0, access, cutoff)
    ensures needle != [] && SafeAdvance(FindCutoff(access, 0, cutoff, |haystack|), |needle| - 1, |haystack|) == |haystack| ==>
              result == Report(ops.call, functor, AllOccurrences(haystack, needle, 0))
    ensures needle != [] && Mergeable(ops, functor) ==>
              result == Report(ops.call, functor, AllOccurrences(haystack, needle, 0))
  {
    var table, _ := BuildFailureFunction(needle);
    result := Search(haystack, 0, |haystack|, needle, table, ops, functor, 0, access, cutoff);
    assert haystack[0..|haystack|] == haystack;
  }

  /** A functor that keeps a list of indices and merges by appending the other list. */
  function ListOps(): FunctorOps<seq<int>> {
    FunctorOps((xs: seq<int>, x: int) => xs + [x], (xs: seq<int>, ys: seq<int>) => xs + ys)
  }

  lemma {:induction false} ListReport(functor: seq<int>, xs: seq<int>)
    ensures Report(ListOps().call, functor, xs) == functor + xs
  {
    if xs != [] {
      ListReport(functor, xs[..|xs| - 1]);
    }
  }

  /** A list functor gives the sequential result exactly when it starts empty: its first entries are copied to every subtask. */
  lemma ListMergeable(functor: seq<int>)
    ensures Mergeable(ListOps(), functor) <==> functor == []
  {
    if functor == [] {
      forall xs: seq<int>, ys: seq<int>
        ensures ListOps().merge(Report(ListOps().call, functor, xs), Report(ListOps().call, functor, ys))
                == Report(ListOps().call, functor, xs + ys)
      {
        ListReport(functor, xs);
        ListReport(functor, ys);
        ListReport(functor, xs + ys);
      }
    } else {
      var none: seq<int> := [];
      ListReport(functor, none);
      assert none + none == none && functor + none == functor;
      assert |functor + functor| != |functor|;
      assert ListOps().merge(Report(ListOps().call, functor, none), Report(ListOps().call, functor, none))
             != Report(ListOps().call, functor, none + none);
    }
  }

  /** n copies of a list. */
  ghost function Copies(xs: seq<int>, n: nat): multiset<int> {
    if n == 0 then multiset{} else multiset(xs) + Copies(xs, n - 1)
  }

  lemma {:induction false} CopiesSum(xs: seq<int>, m: nat, n: nat)
    ensures Copies(xs, m + n) == Copies(xs, m) + Copies(xs, n)
  {
    if m > 0 {
      CopiesSum(xs, m - 1, n);
    }
  }

  lemma OneCopy(start: seq<int>, xs: seq<int>)
    ensures multiset(start + xs) == multiset(xs) + Copies(start, 1)
  {
    assert Copies(start, 1) == multiset(start) + Copies(start, 0);
  }

  lemma JoinedLists(x: seq<int>, y: seq<int>, a: seq<int>, b: seq<int>, start: seq<int>, m: nat, n: nat)
    requires multiset(x) == multiset(a) + Copies(start, m) && multiset(y) == multiset(b) + Copies(start, n)
    ensures multiset(ListOps().merge(x, y)) == multiset(a + b) + Copies(start, m + n)
  {
    hide Copies;
    CopiesSum(start, m, n);
  }

  /** What one task does, leaf or not. */
  lemma SearchCut<T, F>(haystack: seq<T>, first: nat, last: nat, needle: seq<T>, ops: FunctorOps<F>, functor: F, offset: int,
                        access: Access, cutoff: int)
    requires first <= last <= |haystack| && needle != [] && Ends(access, cutoff, |needle|)
    ensures var middle := FindCutoff(access, first, cutoff, last);
            var padded := SafeAdvance(middle, |needle| - 1, last);
            if padded == last then
              && Searched(haystack, first, last, needle, ops, functor, offset, access, cutoff)
                 == Report(ops.call, functor, AllOccurrences(haystack[first..last], needle, offset))
              && LeafCount(first, last, |needle|, access, cutoff) == 1
            else
              && first < middle && padded < last && padded == middle + |needle| - 1
              && Searched(haystack, first, last, needle, ops, functor, offset, access, cutoff)
                 == ops.merge(Searched(haystack, first, padded, needle, ops, functor, offset, access, cutoff),
                              Searched(haystack, middle, last, needle, ops, functor, offset + (middle - first), access, cutoff))
              && LeafCount(first, last, |needle|, access, cutoff)
                 == LeafCount(first, padded, |needle|, access, cutoff) + LeafCount(middle, last, |needle|, access, cutoff)
  {
    hide Report, AllOccurrences;
  }

  /** A list that does not start empty ends up in the result once for every leaf. */
  lemma {:induction false} ListSearch<T>(haystack: seq<T>, first: nat, last: nat, needle: seq<T>, start: seq<int>, offset: int,
                                         access: Access, cutoff: int)
    requires first <= last <= |haystack| && needle != [] && Ends(access, cutoff, |needle|)
    ensures multiset(Searched(haystack, first, last, needle, ListOps(), start, offset, access, cutoff))
            == multiset(AllOccurrences(haystack[first..last], needle, offset)) + Copies(start, LeafCount(first, last, |needle|, access, cutoff))
    decreases last - first
  {
    hide Report, AllOccurrences, ListOps, Copies, Searched, LeafCount, FindCutoff;
    SearchCut(haystack, first, last, needle, ListOps(), start, offset, access, cutoff);
    var middle := FindCutoff(access, first, cutoff, last);
    var padded := SafeAdvance(middle, |needle| - 1, last);
    if padded == last {
      ListReport(start, AllOccurrences(haystack[first..last], needle, offset));
      OneCopy(start, AllOccurrences(haystack[first..last], needle, offset));
    } else {
      var offset2 := offset + (middle - first);
      ListSearch(haystack, first, padded, needle, start, offset, access, cutoff);
      ListSearch(haystack, middle, last, needle, start, offset2, access, cutoff);
      CutChunk(haystack, first, middle, padded, last, needle, offset);
      JoinedLists(Searched(haystack, first, padded, needle, ListOps(), start, offset, access, cutoff),
                  Searched(haystack, middle, last, needle, ListOps(), start, offset2, access, cutoff),
                  AllOccurrences(haystack[first..padded], needle, offset), AllOccurrences(haystack[middle..last], needle, offset2),
                  start, LeafCount(first, padded, |needle|, access, cutoff), LeafCount(middle, last, |needle|, access, cutoff));
    }
  }

  /** With a list functor that starts with any entries: all start positions, and the entries once for every leaf. */
  method KmpCollect<T(==)>(haystack: seq<T>, needle: seq<T>, start: seq<int>, access: Access, cutoff: int) returns (indices: seq<int>)
    requires Ends(access, cutoff, |needle|)
    ensures needle == [] ==> indices == start
    ensures needle != [] ==>
              multiset(indices) == multiset(AllOccurrences(haystack, needle, 0)) + Copies(start, LeafCount(0, |haystack|, |needle|, access, cutoff))
    ensures needle != [] && SafeAdvance(FindCutoff(access, 0, cutoff, |haystack|), |needle| - 1, |haystack|) == |haystack| ==>
              indices == start + AllOccurrences(haystack, needle, 0)
  {
    hide Mergeable, AllOccurrences;
    indices := Kmp(haystack, needle, ListOps(), start, access, cutoff);
    if needle != [] {
      ListSearch(haystack, 0, |haystack|, needle, start, 0, access, cutoff);
      ListReport(start, AllOccurrences(haystack, needle, 0));
      assert haystack[0..|haystack|] == haystack;
    }
  }

  /** With a list functor, parallel_kmp returns all start positions in increasing order, for every cutoff. */
  method KmpIndices<T(==)>(haystack: seq<T>, needle: seq<T>, access: Access, cutoff: int) returns (indices: seq<int>)
    requires Ends(access, cutoff, |needle|)
    ensures needle == [] ==> indices == []
    ensures needle != [] ==> forall i :: i in indices <==> Occurs(haystack, needle, i)
    ensures Increasing(indices)
  {
    hide Mergeable, Increasing, Occurrences;
    indices := Kmp(haystack, needle, ListOps(), [], access, cutoff);
    NothingIncreases();
    ListMergeable([]);
    OccurrencesMeaning(haystack, needle, 0, 0, |haystack|);
    ListReport([], AllOccurrences(haystack, needle, 0));
    assert [] + AllOccurrences(haystack, needle, 0) == AllOccurrences(haystack, needle, 0);
  }
}

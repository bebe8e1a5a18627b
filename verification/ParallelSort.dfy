/** parallel_sort: merge sort that moves the data back and forth between the range and a buffer of the same size. */
module ParallelSort {
  import opened Cutoff
  import opened Ordering
  import opened ForkJoin
  import opened ParallelMerge

  function Insert<T>(less: (T, T) -> bool, s: seq<T>, x: T): seq<T> {
    if s == [] || less(x, s[0]) then [x] + s else [s[0]] + Insert(less, s[1..], x)
  }

  /** Stands for std::sort, of which only the contract is used. */
  function StdSort<T>(less: (T, T) -> bool, s: seq<T>): seq<T> {
    if s == [] then [] else Insert(less, StdSort(less, s[1..]), s[0])
  }

  lemma SmallerNotAbove<T(!new)>(less: (T, T) -> bool, s: seq<T>, x: T)
    requires StrictWeakOrder(less) && Sorted(less, s) && s != [] && less(x, s[0])
    ensures NotAbove(less, [x], s)
  {
    assert forall j :: 0 < j < |s| ==> !less(s[j], s[0]);
  }

  /** The first element stays in front of whatever the rest and x are rearranged into. */
  lemma FirstStays<T(!new)>(less: (T, T) -> bool, s: seq<T>, x: T, rest: seq<T>)
    requires Sorted(less, s) && s != [] && !less(x, s[0])
    requires Sorted(less, rest) && multiset(rest) == multiset(s[1..]) + multiset{x}
    ensures Sorted(less, [s[0]] + rest)
  {
    assert NotAbove(less, [s[0]], s[1..] + [x]);
    hide Sorted, NotAbove;
    NotAbovePermuted(less, [s[0]], s[1..] + [x], [s[0]], rest);
    SortedConcat(less, [s[0]], rest);
  }

  lemma {:induction false} InsertSorts<T(!new)>(less: (T, T) -> bool, s: seq<T>, x: T)
    requires StrictWeakOrder(less) && Sorted(less, s)
    ensures Sorted(less, Insert(less, s, x)) && multiset(Insert(less, s, x)) == multiset(s) + multiset{x}
  {
    hide StrictWeakOrder, NotAbove;
    if s != [] {
      assert s == [s[0]] + s[1..];
      if less(x, s[0]) {
        SmallerNotAbove(less, s, x);
        SortedConcat(less, [x], s);
      } else {
        SortedSlice(less, s, 1, |s|);
        assert s[1..|s|] == s[1..];
        InsertSorts(less, s[1..], x);
        FirstStays(less, s, x, Insert(less, s[1..], x));
      }
    }
  }

  lemma {:induction false} StdSortSorts<T(!new)>(less: (T, T) -> bool, s: seq<T>)
    requires StrictWeakOrder(less)
    ensures Sorted(less, StdSort(less, s)) && multiset(StdSort(less, s)) == multiset(s)
  {
    if s != [] {
      StdSortSorts(less, s[1..]);
      InsertSorts(less, StdSort(less, s[1..]), s[0]);
      assert s == [s[0]] + s[1..];
    }
  }

  /** What std::is_sorted looks at: neighbours only. */
  predicate NeighboursSorted<T>(less: (T, T) -> bool, s: seq<T>) {
    forall i | 0 <= i < |s| - 1 :: !less(s[i + 1], s[i])
  }

  function Flip<T>(less: (T, T) -> bool): (T, T) -> bool {
    (x, y) => less(y, x)
  }

  function Reverse<T>(s: seq<T>): (r: seq<T>)
    ensures |r| == |s| && forall i :: 0 <= i < |s| ==> r[i] == s[|s| - 1 - i]
    ensures multiset(r) == multiset(s)
  {
    if s == [] then []
    else
      assert s == [s[0]] + s[1..];
      Reverse(s[1..]) + [s[0]]
  }

  lemma {:induction false} NeighboursSuffice<T(!new)>(less: (T, T) -> bool, s: seq<T>)
    requires StrictWeakOrder(less)
    ensures NeighboursSorted(less, s) <==> Sorted(less, s)
  {
    if |s| > 1 {
      var n := |s| - 1;
      NeighboursSuffice(less, s[..n]);
      assert NeighboursSorted(less, s) ==> NeighboursSorted(less, s[..n]);
      if NeighboursSorted(less, s) {
        forall i | 0 <= i < n
          ensures !less(s[n], s[i])
        {
          assert !less(s[n - 1 + 1], s[n - 1]);
          if i < n - 1 { assert !less(s[..n][n - 1], s[..n][i]); }
        }
        assert forall i, j :: 0 <= i < j < n ==> !less(s[..n][j], s[..n][i]);
      }
    }
  }

  lemma ReverseSorts<T(!new)>(less: (T, T) -> bool, s: seq<T>)
    requires StrictWeakOrder(less) && NeighboursSorted(Flip(less), s)
    ensures Sorted(less, Reverse(s))
  {
    var r := Reverse(s);
    forall i | 0 <= i < |r| - 1
      ensures !less(r[i + 1], r[i])
    {
      var k := |s| - 2 - i;
      assert !Flip(less)(s[k + 1], s[k]);
    }
    NeighboursSuffice(less, r);
  }

  lemma SameSize<T>(s: seq<T>, t: seq<T>)
    requires multiset(s) == multiset(t)
    ensures |s| == |t|
  {
    assert |multiset(s)| == |s| && |multiset(t)| == |t|;
  }

  predicate Even(depth: nat) {
    depth % 2 == 0
  }

  // ----- What a level leaves -----

  /** A small range is reversed, left alone or sorted. */
  function LeafValue<T>(less: (T, T) -> bool, s: seq<T>): seq<T> {
    if NeighboursSorted(Flip(less), s) then Reverse(s)
    else if !NeighboursSorted(less, s) then StdSort(less, s)
    else s
  }

  /** What one level leaves on its side: a sorted leaf, or the merge of what its two halves leave. */
  ghost function LevelValue<T>(less: (T, T) -> bool, s: seq<T>, depth: nat, cutoff: int): seq<T>
    requires cutoff >= 1
    decreases |s|, depth % 2
  {
    var it := FindCutoff(RandomAccess, 0, cutoff, |s|);
    if it == |s| && Even(depth) then LeafValue(less, s)
    else Merged(less, LevelValue(less, s[..it], depth + 1, cutoff), LevelValue(less, s[it..], depth + 1, cutoff), cutoff)
  }

  lemma HalvesSort<T(!new)>(less: (T, T) -> bool, s: seq<T>, it: nat, x: seq<T>, y: seq<T>, cutoff: int)
    requires StrictWeakOrder(less) && it <= |s| && Sorted(less, x) && Sorted(less, y)
    requires multiset(x) == multiset(s[..it]) && multiset(y) == multiset(s[it..])
    ensures Sorted(less, Merged(less, x, y, cutoff)) && multiset(Merged(less, x, y, cutoff)) == multiset(s)
  {
    hide StrictWeakOrder, Sorted, Merged;
    MergedPermutes(less, x, y, cutoff);
    MergedSorted(less, x, y, cutoff);
    assert s == s[..it] + s[it..];
  }

  lemma LeafValueSorts<T(!new)>(less: (T, T) -> bool, s: seq<T>)
    requires StrictWeakOrder(less)
    ensures Sorted(less, LeafValue(less, s)) && multiset(LeafValue(less, s)) == multiset(s) && |LeafValue(less, s)| == |s|
  {
    hide StrictWeakOrder, Sorted, NeighboursSorted, Reverse, StdSort;
    if NeighboursSorted(Flip(less), s) {
      ReverseSorts(less, s);
    } else if !NeighboursSorted(less, s) {
      StdSortSorts(less, s);
    } else {
      NeighboursSuffice(less, s);
    }
    SameSize(LeafValue(less, s), s);
  }

  lemma {:induction false} LevelValueSorts<T(!new)>(less: (T, T) -> bool, s: seq<T>, depth: nat, cutoff: int)
    requires StrictWeakOrder(less) && cutoff >= 1
    ensures Sorted(less, LevelValue(less, s, depth, cutoff)) && multiset(LevelValue(less, s, depth, cutoff)) == multiset(s)
    ensures |LevelValue(less, s, depth, cutoff)| == |s|
    decreases |s|, depth % 2
  {
    hide StrictWeakOrder, Sorted, Merged, LeafValue;
    var it := FindCutoff(RandomAccess, 0, cutoff, |s|);
    if it == |s| && Even(depth) {
      LeafValueSorts(less, s);
    } else {
      var x, y := LevelValue(less, s[..it], depth + 1, cutoff), LevelValue(less, s[it..], depth + 1, cutoff);
      LevelValueSorts(less, s[..it], depth + 1, cutoff);
      LevelValueSorts(less, s[it..], depth + 1, cutoff);
      HalvesSort(less, s, it, x, y, cutoff);
    }
    SameSize(LevelValue(less, s, depth, cutoff), s);
  }

  // ----- The methods -----

  /** The range is sorted and permuted, and the rest of the array is as before. */
  ghost predicate SortsRange<T>(less: (T, T) -> bool, now: seq<T>, before: seq<T>, beg: int, end: int) {
    && 0 <= beg <= end <= |before| == |now|
    && now[..beg] == before[..beg] && now[end..] == before[end..]
    && Sorted(less, now[beg..end]) && multiset(now[beg..end]) == multiset(before[beg..end])
  }

  method WriteRange<T>(a: array<T>, beg: nat, xs: seq<T>)
    requires beg + |xs| <= a.Length
    modifies a
    ensures a[..] == Blit(old(a[..]), beg, xs)
  {
    forall i | 0 <= i < |xs| {
      a[beg + i] := xs[i];
    }
  }

  lemma BlitParts<T>(s: seq<T>, at: int, xs: seq<T>)
    requires 0 <= at && at + |xs| <= |s|
    ensures var r := Blit(s, at, xs); r[..at] == s[..at] && r[at..at + |xs|] == xs && r[at + |xs|..] == s[at + |xs|..]
  {
  }

  /** What one value of the range does to the whole array. */
  lemma BlitSorts<T>(less: (T, T) -> bool, before: seq<T>, beg: int, end: int, xs: seq<T>)
    requires 0 <= beg <= end <= |before| && |xs| == end - beg
    requires Sorted(less, xs) && multiset(xs) == multiset(before[beg..end])
    ensures SortsRange(less, Blit(before, beg, xs), before, beg, end)
  {
  }

  lemma AlreadySorted<T>(less: (T, T) -> bool, s: seq<T>, beg: int, end: int)
    requires 0 <= beg <= end <= |s| && Sorted(less, s[beg..end])
    ensures SortsRange(less, s, s, beg, end)
  {
  }

  /** Small ranges: reverse, leave alone or sort. */
  method SortLeaf<T(!new)>(a: array<T>, beg: nat, end: nat, less: (T, T) -> bool)
    requires StrictWeakOrder(less) && beg <= end <= a.Length
    modifies a
    ensures |LeafValue(less, old(a[beg..end]))| == end - beg && a[..] == Blit(old(a[..]), beg, LeafValue(less, old(a[beg..end])))
    ensures SortsRange(less, a[..], old(a[..]), beg, end)
    ensures NeighboursSorted(Flip(less), old(a[beg..end])) ==> a[beg..end] == Reverse(old(a[beg..end]))
    ensures NeighboursSorted(less, old(a[beg..end])) && !NeighboursSorted(Flip(less), old(a[beg..end])) ==> a[..] == old(a[..])
  {
    hide StrictWeakOrder, Sorted, NeighboursSorted, Reverse, StdSort, SortsRange;
    var s := a[beg..end];
    ghost var before := a[..];
    assert s == before[beg..end];
    LeafValueSorts(less, s);
    BlitSorts(less, before, beg, end, LeafValue(less, s));
    BlitParts(before, beg, LeafValue(less, s));
    if NeighboursSorted(Flip(less), s) {
      WriteRange(a, beg, Reverse(s));
    } else if !NeighboursSorted(less, s) {
      WriteRange(a, beg, StdSort(less, s));
    } else {
      assert before == before[..beg] + s + before[end..];
    }
    assert a[beg..end] == a[..][beg..end];
  }

  /** Even levels leave their value in the range, odd levels in the buffer. */
  ghost predicate LevelDone<T>(less: (T, T) -> bool, depth: nat, a: seq<T>, b: seq<T>, a0: seq<T>, b0: seq<T>,
                               beg: int, end: int, beg2: int, cutoff: int)
    requires cutoff >= 1
  {
    && 0 <= beg <= end <= |a0| == |a| && 0 <= beg2 && beg2 + (end - beg) <= |b0| == |b|
    && a[..beg] == a0[..beg] && a[end..] == a0[end..]
    && b[..beg2] == b0[..beg2] && b[beg2 + (end - beg)..] == b0[beg2 + (end - beg)..]
    && LevelValue(less, a0[beg..end], depth, cutoff) == if Even(depth) then a[beg..end] else b[beg2..beg2 + (end - beg)]
  }

  lemma LeafIsDone<T>(less: (T, T) -> bool, depth: nat, b: seq<T>, a0: seq<T>, beg: int, end: int, beg2: int, cutoff: int)
    requires cutoff >= 1 && 0 <= beg <= end <= |a0| && 0 <= beg2 && beg2 + (end - beg) <= |b|
    requires Even(depth) && FindCutoff(RandomAccess, 0, cutoff, end - beg) == end - beg && |LeafValue(less, a0[beg..end])| == end - beg
    ensures LevelDone(less, depth, Blit(a0, beg, LeafValue(less, a0[beg..end])), b, a0, b, beg, end, beg2, cutoff)
  {
    hide LeafValue;
    BlitParts(a0, beg, LeafValue(less, a0[beg..end]));
  }

  /** The values of both halves of the range, in the range itself after an even level, in the buffer after an odd one. */
  ghost predicate SidesDone<T>(less: (T, T) -> bool, depth: nat, a: seq<T>, b: seq<T>, a0: seq<T>, b0: seq<T>,
                               beg: int, it: int, end: int, beg2: int, cutoff: int)
    requires cutoff >= 1
  {
    && 0 <= beg <= it <= end <= |a0| == |a| && 0 <= beg2 && beg2 + (end - beg) <= |b0| == |b|
    && a[..beg] == a0[..beg] && a[end..] == a0[end..]
    && b[..beg2] == b0[..beg2] && b[beg2 + (end - beg)..] == b0[beg2 + (end - beg)..]
    && Sides(depth, a, b, beg, it, end, beg2)
       == (LevelValue(less, a0[beg..it], depth, cutoff), LevelValue(less, a0[it..end], depth, cutoff))
  }

  ghost function Sides<T>(depth: nat, a: seq<T>, b: seq<T>, beg: int, it: int, end: int, beg2: int): (seq<T>, seq<T>)
    requires 0 <= beg <= it <= end <= |a| && 0 <= beg2 && beg2 + (end - beg) <= |b|
  {
    if Even(depth) then (a[beg..it], a[it..end])
    else (b[beg2..beg2 + (it - beg)], b[beg2 + (it - beg)..beg2 + (end - beg)])
  }

  lemma DoneInRange<T>(less: (T, T) -> bool, depth: nat, a: seq<T>, b: seq<T>, a0: seq<T>, b0: seq<T>, beg: int, end: int, beg2: int,
                       m: seq<T>, cutoff: int)
    requires cutoff >= 1 && 0 <= beg <= end <= |a0| == |a| && 0 <= beg2 && beg2 + (end - beg) <= |b0| == |b| && |m| == end - beg
    requires a[..beg] == a0[..beg] && a[end..] == a0[end..]
    requires b[..beg2] == b0[..beg2] && b[beg2 + (end - beg)..] == b0[beg2 + (end - beg)..]
    requires Even(depth) && m == LevelValue(less, a0[beg..end], depth, cutoff)
    ensures LevelDone(less, depth, Blit(a, beg, m), b, a0, b0, beg, end, beg2, cutoff)
  {
    hide LevelValue;
    BlitParts(a, beg, m);
  }

  lemma DoneInBuffer<T>(less: (T, T) -> bool, depth: nat, a: seq<T>, b: seq<T>, a0: seq<T>, b0: seq<T>, beg: int, end: int, beg2: int,
                        m: seq<T>, cutoff: int)
    requires cutoff >= 1 && 0 <= beg <= end <= |a0| == |a| && 0 <= beg2 && beg2 + (end - beg) <= |b0| == |b| && |m| == end - beg
    requires a[..beg] == a0[..beg] && a[end..] == a0[end..]
    requires b[..beg2] == b0[..beg2] && b[beg2 + (end - beg)..] == b0[beg2 + (end - beg)..]
    requires !Even(depth) && m == LevelValue(less, a0[beg..end], depth, cutoff)
    ensures LevelDone(less, depth, a, Blit(b, beg2, m), a0, b0, beg, end, beg2, cutoff)
  {
    hide LevelValue;
    BlitParts(b, beg2, m);
  }

  /** A level that is cut merges the values of its halves. */
  lemma LevelValueCut<T>(less: (T, T) -> bool, a0: seq<T>, beg: int, it: int, end: int, depth: nat, cutoff: int)
    requires cutoff >= 1 && 0 <= beg <= end <= |a0| && it == FindCutoff(RandomAccess, beg, cutoff, end) && !(it == end && Even(depth))
    ensures LevelValue(less, a0[beg..end], depth, cutoff)
            == Merged(less, LevelValue(less, a0[beg..it], depth + 1, cutoff), LevelValue(less, a0[it..end], depth + 1, cutoff), cutoff)
  {
    hide Merged, LeafValue;
    var s := a0[beg..end];
    assert s[..it - beg] == a0[beg..it] && s[it - beg..] == a0[it..end];
  }

  /** The values of the halves are on the other side; merging them back completes this level. */
  lemma LevelMerges<T(!new)>(less: (T, T) -> bool, depth: nat, a: seq<T>, b: seq<T>, a0: seq<T>, b0: seq<T>,
                             beg: int, it: int, end: int, beg2: int, cutoff: int)
    requires cutoff >= 1 && SidesDone(less, depth + 1, a, b, a0, b0, beg, it, end, beg2, cutoff)
    requires it == FindCutoff(RandomAccess, beg, cutoff, end) && !(it == end && Even(depth))
    ensures var (x, y) := Sides(depth + 1, a, b, beg, it, end, beg2);
            var m := Merged(less, x, y, cutoff);
            && |x| + |y| == |m| == end - beg
            && (Even(depth) ==> LevelDone(less, depth, Blit(a, beg, m), b, a0, b0, beg, end, beg2, cutoff))
            && (!Even(depth) ==> LevelDone(less, depth, a, Blit(b, beg2, m), a0, b0, beg, end, beg2, cutoff))
  {
    hide Merged, LevelValue, Blit, LevelDone;
    var (x, y) := Sides(depth + 1, a, b, beg, it, end, beg2);
    var m := Merged(less, x, y, cutoff);
    MergedPermutes(less, x, y, cutoff);
    LevelValueCut(less, a0, beg, it, end, depth, cutoff);
    if Even(depth) {
      DoneInRange(less, depth, a, b, a0, b0, beg, end, beg2, m, cutoff);
    } else {
      DoneInBuffer(less, depth, a, b, a0, b0, beg, end, beg2, m, cutoff);
    }
  }

  /** Such a value is the sorted permutation of the range. */
  lemma LevelDoneSorts<T(!new)>(less: (T, T) -> bool, depth: nat, a: seq<T>, b: seq<T>, a0: seq<T>, b0: seq<T>,
                                beg: int, end: int, beg2: int, cutoff: int)
    requires cutoff >= 1 && StrictWeakOrder(less) && LevelDone(less, depth, a, b, a0, b0, beg, end, beg2, cutoff)
    ensures Even(depth) ==> SortsRange(less, a, a0, beg, end)
    ensures !Even(depth) ==>
              var xs := b[beg2..beg2 + (end - beg)];
              Sorted(less, xs) && multiset(xs) == multiset(a0[beg..end])
  {
    hide StrictWeakOrder, Sorted, LevelValue;
    LevelValueSorts(less, a0[beg..end], depth, cutoff);
  }

  /** What a change of [beg, it) followed by a change of [it, end) leaves as it was. */
  lemma LeftThenRight<T>(s0: seq<T>, s1: seq<T>, s2: seq<T>, beg: int, it: int, end: int)
    requires 0 <= beg <= it <= end <= |s0| == |s1| == |s2|
    requires s1[..beg] == s0[..beg] && s1[it..] == s0[it..] && s2[..it] == s1[..it] && s2[end..] == s1[end..]
    ensures s2[..beg] == s0[..beg] && s2[end..] == s0[end..] && s2[beg..it] == s1[beg..it] && s1[it..end] == s0[it..end]
  {
  }

  /** The same for the other order. */
  lemma RightThenLeft<T>(s0: seq<T>, s1: seq<T>, s2: seq<T>, beg: int, it: int, end: int)
    requires 0 <= beg <= it <= end <= |s0| == |s1| == |s2|
    requires s1[..it] == s0[..it] && s1[end..] == s0[end..] && s2[..beg] == s1[..beg] && s2[it..] == s1[it..]
    ensures s2[..beg] == s0[..beg] && s2[end..] == s0[end..] && s2[it..end] == s1[it..end] && s1[beg..it] == s0[beg..it]
  {
  }

  /** Two neighbouring halves, the left one first. */
  lemma CombineLeftRight<T>(less: (T, T) -> bool, depth: nat, a0: seq<T>, b0: seq<T>, a1: seq<T>, b1: seq<T>,
                            a2: seq<T>, b2: seq<T>, beg: int, it: int, end: int, beg2: int, cutoff: int)
    requires cutoff >= 1 && beg <= it <= end
    requires LevelDone(less, depth, a1, b1, a0, b0, beg, it, beg2, cutoff)
    requires LevelDone(less, depth, a2, b2, a1, b1, it, end, beg2 + (it - beg), cutoff)
    ensures SidesDone(less, depth, a2, b2, a0, b0, beg, it, end, beg2, cutoff)
  {
    hide LevelValue, Even;
    LeftThenRight(a0, a1, a2, beg, it, end);
    LeftThenRight(b0, b1, b2, beg2, beg2 + (it - beg), beg2 + (end - beg));
  }

  /** Two neighbouring halves, the right one first. */
  lemma CombineRightLeft<T>(less: (T, T) -> bool, depth: nat, a0: seq<T>, b0: seq<T>, a1: seq<T>, b1: seq<T>,
                            a2: seq<T>, b2: seq<T>, beg: int, it: int, end: int, beg2: int, cutoff: int)
    requires cutoff >= 1 && beg <= it <= end && 0 <= beg2
    requires LevelDone(less, depth, a1, b1, a0, b0, it, end, beg2 + (it - beg), cutoff)
    requires LevelDone(less, depth, a2, b2, a1, b1, beg, it, beg2, cutoff)
    ensures SidesDone(less, depth, a2, b2, a0, b0, beg, it, end, beg2, cutoff)
  {
    hide LevelValue, Even;
    RightThenLeft(a0, a1, a2, beg, it, end);
    RightThenLeft(b0, b1, b2, beg2, beg2 + (it - beg), beg2 + (end - beg));
  }

  /** The join of a level: merge from the other side. */
  method MergeBack<T(!new)>(a: array<T>, beg: nat, it: nat, end: nat, b: array<T>, beg2: nat, depth: nat, less: (T, T) -> bool,
                            cutoff: int, ghost a0: seq<T>, ghost b0: seq<T>)
    requires StrictWeakOrder(less) && a != b
    requires beg <= it <= end <= a.Length && beg2 + (end - beg) <= b.Length
    requires cutoff >= 1 && SidesDone(less, depth + 1, a[..], b[..], a0, b0, beg, it, end, beg2, cutoff)
    requires it == FindCutoff(RandomAccess, beg, cutoff, end) && !(it == end && Even(depth))
    modifies a, b
    ensures LevelDone(less, depth, a[..], b[..], a0, b0, beg, end, beg2, cutoff)
  {
    hide StrictWeakOrder, LevelDone, SidesDone, Merged, Blit;
    var it2, end2 := beg2 + (it - beg), beg2 + (end - beg);
    LevelMerges(less, depth, a[..], b[..], a0, b0, beg, it, end, beg2, cutoff);
    if Even(depth) {
      assert b[..][beg2..it2] == b[beg2..it2] && b[..][it2..end2] == b[it2..end2];
      Merge(less, b[beg2..it2], b[it2..end2], a, beg, cutoff);
    } else {
      assert a[..][beg..it] == a[beg..it] && a[..][it..end] == a[it..end];
      Merge(less, a[beg..it], a[it..end], b, beg2, cutoff);
    }
  }

  /** One level of the recursion. */
  method SortLevel<T(!new)>(a: array<T>, beg: nat, end: nat, b: array<T>, beg2: nat, depth: nat, less: (T, T) -> bool, cutoff: int)
    requires StrictWeakOrder(less) && cutoff >= 1 && a != b
    requires beg <= end <= a.Length && beg2 + (end - beg) <= b.Length
    modifies a, b
    ensures LevelDone(less, depth, a[..], b[..], old(a[..]), old(b[..]), beg, end, beg2, cutoff)
    ensures Even(depth) ==> SortsRange(less, a[..], old(a[..]), beg, end)
    ensures !Even(depth) ==>
              var xs := b[beg2..beg2 + (end - beg)];
              Sorted(less, xs) && multiset(xs) == multiset(old(a[beg..end]))
    decreases end - beg, depth % 2
  {
    hide StrictWeakOrder, LevelDone, SidesDone, SortsRange, Sorted;
    var it := FindCutoff(RandomAccess, beg, cutoff, end);
    if it == end && Even(depth) {
      SortLeaf(a, beg, end, less);
      LeafIsDone(less, depth, b[..], old(a[..]), beg, end, beg2, cutoff);
    } else {
      SortSides(a, beg, it, end, b, beg2, depth, less, cutoff);
      MergeBack(a, beg, it, end, b, beg2, depth, less, cutoff, old(a[..]), old(b[..]));
    }
    LevelDoneSorts(less, depth, a[..], b[..], old(a[..]), old(b[..]), beg, end, beg2, cutoff);
    assert b[..][beg2..beg2 + (end - beg)] == b[beg2..beg2 + (end - beg)] && old(a[..])[beg..end] == old(a[beg..end]);
  }

  /** The two subtasks of a level, in either order. */
  method SortSides<T(!new)>(a: array<T>, beg: nat, it: nat, end: nat, b: array<T>, beg2: nat, depth: nat, less: (T, T) -> bool, cutoff: int)
    requires StrictWeakOrder(less) && cutoff >= 1 && a != b
    requires beg <= it <= end <= a.Length && beg2 + (end - beg) <= b.Length
    requires it < end || !Even(depth)
    requires beg < it || beg == end
    modifies a, b
    ensures SidesDone(less, depth + 1, a[..], b[..], old(a[..]), old(b[..]), beg, it, end, beg2, cutoff)
    decreases end - beg, depth % 2, 0
  {
    hide LevelDone, SidesDone, StrictWeakOrder;
    ghost var a0, b0 := a[..], b[..];
    if * {
      SortLevel(a, beg, it, b, beg2, depth + 1, less, cutoff);
      ghost var a1, b1 := a[..], b[..];
      SortLevel(a, it, end, b, beg2 + (it - beg), depth + 1, less, cutoff);
      CombineLeftRight(less, depth + 1, a0, b0, a1, b1, a[..], b[..], beg, it, end, beg2, cutoff);
    } else {
      SortLevel(a, it, end, b, beg2 + (it - beg), depth + 1, less, cutoff);
      ghost var a1, b1 := a[..], b[..];
      SortLevel(a, beg, it, b, beg2, depth + 1, less, cutoff);
      CombineRightLeft(less, depth + 1, a0, b0, a1, b1, a[..], b[..], beg, it, end, beg2, cutoff);
    }
  }

  // ----- The passes over a range that may be sorted already -----

  lemma NeighboursSplit<T>(less: (T, T) -> bool, x: seq<T>, y: seq<T>)
    requires |x| > 0 && |y| > 0
    ensures NeighboursSorted(less, x + y) <==> NeighboursSorted(less, x) && NeighboursSorted(less, y) && !less(y[0], x[|x| - 1])
  {
    var s := x + y;
    assert s[|x| - 1] == x[|x| - 1] && s[|x|] == y[0];
    forall i | 0 <= i < |x| - 1
      ensures !less(x[i + 1], x[i]) <==> !less(s[i + 1], s[i])
    {
    }
    forall i | 0 <= i < |y| - 1
      ensures !less(y[i + 1], y[i]) <==> !less(s[|x| + i + 1], s[|x| + i])
    {
    }
    if NeighboursSorted(less, s) {
      assert !less(s[|x| - 1 + 1], s[|x| - 1]);
    } else {
      var i :| 0 <= i < |s| - 1 && less(s[i + 1], s[i]);
      if i < |x| - 1 {
        assert less(x[i + 1], x[i]);
      } else if i >= |x| {
        assert less(y[i - |x| + 1], y[i - |x|]);
      }
    }
  }

  /** parallel_is_sorted: two neighbours that are cut apart are compared before the subtasks are posted. */
  method IsSortedPass<T>(a: array<T>, beg: nat, end: nat, less: (T, T) -> bool, cutoff: int) returns (sorted: bool)
    requires cutoff >= 1 && beg <= end <= a.Length
    ensures sorted <==> NeighboursSorted(less, a[beg..end])
    decreases end - beg
  {
    var it := FindCutoff(RandomAccess, beg, cutoff, end);
    if it == end {
      sorted := NeighboursSorted(less, a[beg..end]);
    } else {
      NeighboursSplit(less, a[beg..it], a[it..end]);
      assert a[beg..it] + a[it..end] == a[beg..end];
      if less(a[it], a[it - 1]) {
        sorted := false;
      } else {
        var left := IsSortedPass(a, beg, it, less, cutoff);
        var right := IsSortedPass(a, it, end, less, cutoff);
        sorted := left && right;
      }
    }
  }

  /** Position i or the one it changes places with when [beg, end) is reversed lies in [lo, hi). */
  predicate Paired(beg: int, end: int, lo: int, hi: int, i: int) {
    lo <= i < hi || lo <= beg + end - 1 - i < hi
  }

  /** Each element of [lo, hi), a part of the first half of [beg, end), has changed places with its counterpart. */
  ghost function Mirrored<T>(s: seq<T>, beg: int, end: int, lo: int, hi: int): seq<T>
    requires 0 <= beg <= lo <= hi <= end - (hi - beg) && end <= |s|
  {
    seq(|s|, i requires 0 <= i < |s| => if Paired(beg, end, lo, hi, i) then s[beg + end - 1 - i] else s[i])
  }

  lemma MirroredParts<T>(s: seq<T>, beg: int, end: int, lo: int, mid: int, hi: int)
    requires 0 <= beg <= lo <= mid <= hi <= end - (hi - beg) && end <= |s|
    ensures Mirrored(Mirrored(s, beg, end, lo, mid), beg, end, mid, hi) == Mirrored(s, beg, end, lo, hi)
    ensures Mirrored(Mirrored(s, beg, end, mid, hi), beg, end, lo, mid) == Mirrored(s, beg, end, lo, hi)
  {
  }

  lemma OnlyMiddle<T>(m: seq<T>, s: seq<T>, beg: int, end: int, x: seq<T>)
    requires 0 <= beg <= end <= |s| == |m| && |x| == end - beg
    requires forall i :: 0 <= i < |s| && !(beg <= i < end) ==> m[i] == s[i]
    requires forall i :: 0 <= i < |x| ==> m[beg + i] == x[i]
    ensures m == Blit(s, beg, x)
  {
    assert m[beg..end] == x && m[..beg] == s[..beg] && m[end..] == s[end..];
    assert m == m[..beg] + m[beg..end] + m[end..];
  }

  lemma MirroredReverses<T>(s: seq<T>, beg: int, end: int, mid: int)
    requires 0 <= beg <= end <= |s| && 2 * mid <= beg + end <= 2 * mid + 1
    ensures Mirrored(s, beg, end, beg, mid) == Blit(s, beg, Reverse(s[beg..end]))
  {
    hide Reverse;
    var m, x := Mirrored(s, beg, end, beg, mid), s[beg..end];
    forall i | 0 <= i < end - beg
      ensures m[beg + i] == Reverse(x)[i]
    {
      assert Reverse(x)[i] == x[|x| - 1 - i] == s[end - 1 - i];
      if !Paired(beg, end, beg, mid, beg + i) { assert end - 1 - i == beg + i; }
    }
    OnlyMiddle(m, s, beg, end, Reverse(x));
  }

  method ReverseLeaf<T>(a: array<T>, beg: nat, end: nat, begReverse: nat, endReverse: nat)
    requires beg <= begReverse <= endReverse <= end - (endReverse - beg) && end <= a.Length
    modifies a
    ensures a[..] == Mirrored(old(a[..]), beg, end, begReverse, endReverse)
  {
    var endSwap := end - (begReverse - beg + 1);
    var it := begReverse;
    while it != endReverse
      invariant begReverse <= it <= endReverse && endSwap == beg + end - 1 - it
      invariant a[..] == Mirrored(old(a[..]), beg, end, begReverse, it)
    {
      a[it], a[endSwap] := a[endSwap], a[it];
      endSwap := endSwap - 1;
      it := it + 1;
    }
  }

  /** parallel_reverse cuts the first half of the range; each task exchanges its part with the counterpart. */
  method ReversePart<T>(a: array<T>, beg: nat, end: nat, begReverse: nat, endReverse: nat, cutoff: int)
    requires cutoff >= 1 && beg <= begReverse <= endReverse <= end - (endReverse - beg) && end <= a.Length
    modifies a
    ensures a[..] == Mirrored(old(a[..]), beg, end, begReverse, endReverse)
    decreases endReverse - begReverse
  {
    var it := FindCutoff(RandomAccess, begReverse, cutoff, endReverse);
    if it == endReverse {
      ReverseLeaf(a, beg, end, begReverse, endReverse);
    } else {
      MirroredParts(a[..], beg, end, begReverse, it, endReverse);
      hide Mirrored;
      if * {
        ReversePart(a, beg, end, begReverse, it, cutoff);
        ReversePart(a, beg, end, it, endReverse, cutoff);
      } else {
        ReversePart(a, beg, end, it, endReverse, cutoff);
        ReversePart(a, beg, end, begReverse, it, cutoff);
      }
    }
  }

  method ReversePass<T>(a: array<T>, beg: nat, end: nat, cutoff: int)
    requires cutoff >= 1 && beg <= end <= a.Length
    modifies a
    ensures a[..] == Blit(old(a[..]), beg, Reverse(old(a[beg..end])))
  {
    MirroredReverses(a[..], beg, end, beg + (end - beg) / 2);
    assert a[..][beg..end] == a[beg..end];
    ReversePart(a, beg, end, beg, beg + (end - beg) / 2, cutoff);
  }

  /**
    The whole range ends up sorted, and nothing else is touched. A range that is sorted already and not small
    is left as it is; one that is sorted the other way round is reversed.
   */
  method Sort<T(!new)>(a: array<T>, beg: nat, end: nat, less: (T, T) -> bool, cutoff: int)
    requires StrictWeakOrder(less) && cutoff >= 1 && beg <= end <= a.Length
    modifies a
    ensures SortsRange(less, a[..], old(a[..]), beg, end)
    ensures end - beg > cutoff && NeighboursSorted(less, old(a[beg..end])) ==> a[..] == old(a[..])
    ensures NeighboursSorted(Flip(less), old(a[beg..end])) && (end - beg <= cutoff || !NeighboursSorted(less, old(a[beg..end]))) ==>
              a[beg..end] == Reverse(old(a[beg..end]))
  {
    hide StrictWeakOrder, Sorted, SortsRange, LevelDone, Reverse, Blit, LeafValue;
    var it := FindCutoff(RandomAccess, beg, cutoff, end);
    if it == end {
      SortLeaf(a, beg, end, less);
      return;
    }
    ghost var s := a[beg..end];
    assert s == a[..][beg..end];
    var sorted := IsSortedPass(a, beg, end, less, cutoff);
    if sorted {
      NeighboursSuffice(less, s);
      AlreadySorted(less, a[..], beg, end);
      return;
    }
    var reverseSorted := IsSortedPass(a, beg, end, Flip(less), cutoff);
    if reverseSorted {
      ReverseSorts(less, s);
      BlitSorts(less, a[..], beg, end, Reverse(s));
      BlitParts(a[..], beg, Reverse(s));
      ReversePass(a, beg, end, cutoff);
      assert a[beg..end] == a[..][beg..end];
    } else {
      var x := a[beg];
      var buffer := new T[end - beg](_ => x);
      SortLevel(a, beg, end, buffer, 0, 0, less, cutoff);
    }
  }
}

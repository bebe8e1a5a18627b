/** parallel_flatten: prefix sums of the sizes say where each inner container goes; the moves then run in parallel. */
module Flattening {
  import opened Cutoff
  import opened Ordering
  import opened ForkJoin
  import opened Grouping
  import opened GroupBy
  import opened ParallelScan

  /** The total size of the first i containers. */
  function Offset<T>(gs: seq<seq<T>>, i: nat): nat
    requires i <= |gs|
  {
    if i == 0 then 0 else Offset(gs, i - 1) + |gs[i - 1]|
  }

  /** What the exclusive scan promises: every offset is the sum of the sizes before it. */
  ghost predicate AreOffsets<T>(offsets: seq<int>, gs: seq<seq<T>>) {
    |offsets| == |gs| && forall i :: 0 <= i < |gs| ==> offsets[i] == Offset(gs, i)
  }

  lemma FlattenSlice<T>(gs: seq<seq<T>>, lo: int, mid: int, hi: int)
    requires 0 <= lo <= mid <= hi <= |gs|
    ensures Flatten(gs[lo..hi]) == Flatten(gs[lo..mid]) + Flatten(gs[mid..hi])
  {
    assert gs[lo..hi] == gs[lo..mid] + gs[mid..hi];
    FlattenConcat(gs[lo..mid], gs[mid..hi]);
  }

  lemma FlattenOne<T>(gs: seq<seq<T>>, i: int)
    requires 0 <= i < |gs|
    ensures Flatten(gs[i..i + 1]) == gs[i]
  {
  }

  /** Consecutive containers take up consecutive places of the result. */
  lemma {:induction false} OffsetsTile<T>(gs: seq<seq<T>>, lo: nat, hi: nat)
    requires lo <= hi <= |gs|
    ensures Offset(gs, lo) + |Flatten(gs[lo..hi])| == Offset(gs, hi)
    decreases hi - lo
  {
    if lo < hi {
      OffsetsTile(gs, lo, hi - 1);
      FlattenSlice(gs, lo, hi - 1, hi);
      FlattenOne(gs, hi - 1);
    }
  }

  /** The moves of one leaf of parallel_for. */
  ghost function MoveWrites<T>(gs: seq<seq<T>>, lo: nat, hi: nat): seq<Write<T>>
    requires lo <= hi <= |gs|
    decreases hi - lo
  {
    if lo == hi then [] else MoveWrites(gs, lo, hi - 1) + WritesAt(Offset(gs, hi - 1), gs[hi - 1])
  }

  /** The tasks of the parallel_for over the indices. */
  ghost function MovePlan<T>(gs: seq<seq<T>>, lo: nat, hi: nat, cutoff: int): Job<T>
    requires lo <= hi <= |gs| && cutoff >= 1
    decreases hi - lo
  {
    var it := FindCutoff(Integral, lo, cutoff, hi);
    if it == hi then Leaf(MoveWrites(gs, lo, hi))
    else Fork([], MovePlan(gs, lo, it, cutoff), MovePlan(gs, it, hi, cutoff))
  }

  /** Moving one more stretch of containers extends what is in place. */
  lemma PlaceNext<T>(gs: seq<seq<T>>, lo: nat, mid: nat, hi: nat)
    requires lo <= mid <= hi <= |gs|
    ensures Placed(Offset(gs, lo), Flatten(gs[lo..hi]))
            == Placed(Offset(gs, lo), Flatten(gs[lo..mid])) + Placed(Offset(gs, mid), Flatten(gs[mid..hi]))
    ensures Placed(Offset(gs, lo), Flatten(gs[lo..mid])).Keys !! Placed(Offset(gs, mid), Flatten(gs[mid..hi])).Keys
  {
    hide Flatten, Offset, Placed;
    FlattenSlice(gs, lo, mid, hi);
    OffsetsTile(gs, lo, mid);
    PlacedConcat(Offset(gs, lo), Flatten(gs[lo..mid]), Flatten(gs[mid..hi]));
  }

  lemma {:induction false} MoveWritesContent<T>(gs: seq<seq<T>>, lo: nat, hi: nat)
    requires lo <= hi <= |gs|
    ensures Content(MoveWrites(gs, lo, hi)) == Placed(Offset(gs, lo), Flatten(gs[lo..hi]))
    decreases hi - lo
  {
    if lo == hi {
      assert gs[lo..hi] == [];
      return;
    }
    hide Content, Placed, Flatten, Offset, WritesAt;
    var last := hi - 1;
    MoveWritesContent(gs, lo, last);
    ContentConcat(MoveWrites(gs, lo, last), WritesAt(Offset(gs, last), gs[last]));
    ContentWritesAt(Offset(gs, last), gs[last]);
    FlattenOne(gs, last);
    PlaceNext(gs, lo, last, hi);
  }

  /** Moves that can run at the same time go to different places, and together they are the concatenation. */
  lemma {:induction false} MovePlanContent<T>(gs: seq<seq<T>>, lo: nat, hi: nat, cutoff: int)
    requires lo <= hi <= |gs| && cutoff >= 1
    ensures RaceFree(MovePlan(gs, lo, hi, cutoff))
    ensures Content(InOrder(MovePlan(gs, lo, hi, cutoff))) == Placed(Offset(gs, lo), Flatten(gs[lo..hi]))
    decreases hi - lo
  {
    hide Content, Placed, Flatten, Offset, MoveWrites;
    var it := FindCutoff(Integral, lo, cutoff, hi);
    if it == hi {
      MoveWritesContent(gs, lo, hi);
    } else {
      MovePlanContent(gs, lo, it, cutoff);
      MovePlanContent(gs, it, hi, cutoff);
      PlaceNext(gs, lo, it, hi);
      EmptyForkContent(MovePlan(gs, lo, it, cutoff), MovePlan(gs, it, hi, cutoff));
    }
  }

  /** Main result: in whatever order the moves take effect, the result is the concatenation. */
  lemma EveryRunFlattens<T(!new)>(gs: seq<seq<T>>, out: seq<T>, cutoff: int, trace: seq<Write<T>>)
    requires cutoff >= 1 && |out| == Offset(gs, |gs|)
    requires IsRun(MovePlan(gs, 0, |gs|, cutoff), trace)
    ensures Apply(out, trace) == Flatten(gs)
  {
    hide Content, Placed, Flatten, MovePlan, IsRun, RaceFree, Apply;
    MovePlanContent(gs, 0, |gs|, cutoff);
    EveryRunPatches(out, MovePlan(gs, 0, |gs|, cutoff), trace);
    OffsetsTile(gs, 0, |gs|);
    assert gs[0..|gs|] == gs;
    PatchPlaced(out, 0, Flatten(gs));
  }

  // ----- The code -----

  function Plus(): (int, int) -> int {
    (x, y) => x + y
  }

  function SizesOf<T>(gs: seq<seq<T>>): (sizes: seq<int>)
    ensures |sizes| == |gs| && forall i :: 0 <= i < |gs| ==> sizes[i] == |gs[i]|
  {
    seq(|gs|, i requires 0 <= i < |gs| => |gs[i]|)
  }

  lemma {:induction false} FoldIsOffset<T>(gs: seq<seq<T>>, i: nat)
    requires i <= |gs|
    ensures Fold(Plus(), 0, SizesOf(gs)[..i]) == Offset(gs, i)
  {
    if i > 0 {
      FoldIsOffset(gs, i - 1);
      assert SizesOf(gs)[..i][..i - 1] == SizesOf(gs)[..i - 1];
    }
  }

  /** The offset calculation: a parallel exclusive scan over the sizes with sums, which start from zero. */
  method ScanSizes<T>(gs: seq<seq<T>>, cutoff: int) returns (offsets: array<int>, total: nat)
    requires cutoff >= 1
    ensures AreOffsets(offsets[..], gs) && total == Offset(gs, |gs|)
  {
    var sizes := SizesOf(gs);
    offsets := new int[|gs|];
    var sum := ParallelExclusiveScan(Plus(), 0, sizes, offsets, 0, RandomAccess, cutoff);
    ScanMeaning(Plus(), 0, sizes);
    forall i: nat | i <= |gs|
      ensures Fold(Plus(), 0, sizes[..i]) == Offset(gs, i)
    {
      FoldIsOffset(gs, i);
    }
    assert sizes[..|gs|] == sizes;
    total := sum;
  }

  /** The leaf of parallel_for: each container is moved to its offset. */
  method MoveLeaf<T>(gs: seq<seq<T>>, lo: nat, hi: nat, offsets: array<int>, result: array<T>)
    requires lo <= hi <= |gs| && AreOffsets(offsets[..], gs) && Offset(gs, hi) <= result.Length
    requires offsets as object != result
    modifies result
    ensures Offset(gs, lo) + |Flatten(gs[lo..hi])| == Offset(gs, hi)
    ensures result[..] == Blit(old(result[..]), Offset(gs, lo), Flatten(gs[lo..hi]))
  {
    hide Flatten, Offset, Blit, AreOffsets;
    ghost var before := result[..];
    ghost var start := Offset(gs, lo);
    OffsetsTile(gs, lo, lo);
    OffsetsTile(gs, lo, hi);
    BlitNothing(before, start, Flatten(gs[lo..lo]));
    for i := lo to hi
      invariant Offset(gs, lo) + |Flatten(gs[lo..i])| == Offset(gs, i)
      invariant start + |Flatten(gs[lo..i])| <= result.Length
      invariant result[..] == Blit(before, start, Flatten(gs[lo..i]))
      invariant AreOffsets(offsets[..], gs)
    {
      ghost var done := Flatten(gs[lo..i]);
      OffsetsTile(gs, lo, i + 1);
      OffsetsTile(gs, i + 1, hi);
      FlattenSlice(gs, lo, i, i + 1);
      FlattenOne(gs, i);
      OffsetAt(offsets[..], gs, i);
      CopyTo(gs[i], result, offsets[i]);
      BlitBlit(before, start, done, gs[i]);
    }
  }

  lemma OffsetAt<T>(offsets: seq<int>, gs: seq<seq<T>>, i: nat)
    requires AreOffsets(offsets, gs) && i < |gs|
    ensures |offsets| == |gs| && offsets[i] == Offset(gs, i)
  {
  }

  method CopyTo<T>(xs: seq<T>, result: array<T>, at: nat)
    requires at + |xs| <= result.Length
    modifies result
    ensures result[..] == Blit(old(result[..]), at, xs)
  {
    forall i | 0 <= i < |xs| {
      result[at + i] := xs[i];
    }
  }

  /** One task of parallel_for, its subtasks in either order. */
  method Move<T>(gs: seq<seq<T>>, lo: nat, hi: nat, offsets: array<int>, result: array<T>, cutoff: int)
    requires lo <= hi <= |gs| && AreOffsets(offsets[..], gs) && Offset(gs, hi) <= result.Length && cutoff >= 1
    requires offsets as object != result
    modifies result
    ensures Offset(gs, lo) + |Flatten(gs[lo..hi])| == Offset(gs, hi)
    ensures result[..] == Blit(old(result[..]), Offset(gs, lo), Flatten(gs[lo..hi]))
    decreases hi - lo
  {
    hide Flatten, Offset, AreOffsets, Blit;
    var it := FindCutoff(Integral, lo, cutoff, hi);
    if it == hi {
      MoveLeaf(gs, lo, hi, offsets, result);
    } else {
      ghost var before := result[..];
      ghost var x, y := Flatten(gs[lo..it]), Flatten(gs[it..hi]);
      OffsetsTile(gs, lo, it);
      OffsetsTile(gs, it, hi);
      FlattenSlice(gs, lo, it, hi);
      BlitBlit(before, Offset(gs, lo), x, y);
      BlitsSwap(before, Offset(gs, lo), x, y);
      if * {
        Move(gs, lo, it, offsets, result, cutoff);
        Move(gs, it, hi, offsets, result, cutoff);
      } else {
        Move(gs, it, hi, offsets, result, cutoff);
        Move(gs, lo, it, offsets, result, cutoff);
      }
    }
  }

  /** The whole of parallel_flatten. */
  method ParallelFlatten<T(0)>(gs: seq<seq<T>>, offsetCutoff: int, moveCutoff: int) returns (result: array<T>)
    requires offsetCutoff >= 1 && moveCutoff >= 1
    ensures result[..] == Flatten(gs)
  {
    var offsets, total := ScanSizes(gs, offsetCutoff);
    result := new T[total];
    Move(gs, 0, |gs|, offsets, result, moveCutoff);
    assert gs[0..|gs|] == gs;
  }

  // ----- Both algorithms together -----

  /** parallel_flatten undoes parallel_group_by on every sorted range. */
  method GroupThenFlatten<T(!new, 0)>(s: seq<T>, less: (T, T) -> bool, access: Access, groupCutoff: int, offsetCutoff: int, moveCutoff: int)
    returns (result: array<T>)
    requires StrictWeakOrder(less) && Sorted(less, s) && groupCutoff >= 1 && offsetCutoff >= 1 && moveCutoff >= 1
    ensures result[..] == s
  {
    var groups := ParallelGroupBy(s, less, access, groupCutoff);
    result := ParallelFlatten(groups, offsetCutoff, moveCutoff);
  }

  /** parallel_group_by undoes parallel_flatten exactly on lists of groups, if what it is given is sorted. */
  method FlattenThenGroup<T(!new, 0)>(gs: seq<seq<T>>, less: (T, T) -> bool, access: Access, groupCutoff: int, offsetCutoff: int, moveCutoff: int)
    returns (groups: seq<seq<T>>)
    requires StrictWeakOrder(less) && Sorted(less, Flatten(gs)) && groupCutoff >= 1 && offsetCutoff >= 1 && moveCutoff >= 1
    ensures groups == gs <==> IsGrouping(less, gs)
  {
    var flat := ParallelFlatten(gs, offsetCutoff, moveCutoff);
    groups := ParallelGroupBy(flat[..], less, access, groupCutoff);
    RoundTrips(less, gs);
  }
}

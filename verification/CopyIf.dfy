/** parallel_copy_if: a first pass builds a tree of counts, a second pass over the same tree turns them into write positions. */
module CopyIf {
  import opened Tally
  import opened Cutoff
  import opened ForkJoin
  import opened Filtering

  /** What the first pass leaves for the second: a leaf has a flag per element, an inner node has two subnodes. */
  datatype Data = Data(trueSize: nat, values: seq<bool>, data: seq<Data>)

  ghost predicate FlagsOf<T>(p: T -> bool, xs: seq<T>, values: seq<bool>) {
    |values| == |xs| && forall i :: 0 <= i < |xs| ==> values[i] == p(xs[i])
  }

  /** The tree that the first pass builds for a range. */
  ghost predicate Describes<T>(data: Data, s: seq<T>, p: T -> bool, lo: int, hi: int, access: Access, cutoff: int)
    requires 0 <= lo <= hi <= |s| && cutoff >= 1
    decreases hi - lo
  {
    var it := FindCutoff(access, lo, cutoff, hi);
    if it == hi then data.trueSize == CountTrue(s, p, lo, hi) && FlagsOf(p, s[lo..hi], data.values)
    else
      && |data.data| == 2 && data.trueSize == data.data[0].trueSize + data.data[1].trueSize
      && Describes(data.data[0], s, p, lo, it, access, cutoff) && Describes(data.data[1], s, p, it, hi, access, cutoff)
  }

  lemma {:induction false} DescribesCount<T>(data: Data, s: seq<T>, p: T -> bool, lo: int, hi: int, access: Access, cutoff: int)
    requires 0 <= lo <= hi <= |s| && cutoff >= 1 && Describes(data, s, p, lo, hi, access, cutoff)
    ensures data.trueSize == |Filter(p, s[lo..hi])|
    decreases hi - lo
  {
    FilterCount(p, s, lo, hi);
    var it := FindCutoff(access, lo, cutoff, hi);
    if it != hi {
      DescribesCount(data.data[0], s, p, lo, it, access, cutoff);
      DescribesCount(data.data[1], s, p, it, hi, access, cutoff);
      FilterSplit(p, s, lo, it, hi);
    }
  }

  /** The elements whose flag is set. */
  function Selected<T>(values: seq<bool>, xs: seq<T>): seq<T>
    requires |values| == |xs|
  {
    if xs == [] then []
    else Selected(values[..|xs| - 1], xs[..|xs| - 1]) + (if values[|xs| - 1] then [xs[|xs| - 1]] else [])
  }

  lemma {:induction false} SelectedIsFilter<T>(p: T -> bool, xs: seq<T>, values: seq<bool>)
    requires FlagsOf(p, xs, values)
    ensures Selected(values, xs) == Filter(p, xs)
    decreases |xs|
  {
    if xs != [] {
      var n := |xs| - 1;
      SelectedIsFilter(p, xs[..n], values[..n]);
      FilterNext(p, xs, 0, n);
      assert xs[0..n] == xs[..n] && xs[0..n + 1] == xs;
    }
  }

  /** The tasks of the second pass. */
  ghost function CopyPlan<T>(data: Data, s: seq<T>, p: T -> bool, lo: int, hi: int, out: int, offset: int, access: Access, cutoff: int): Job<T>
    requires 0 <= lo <= hi <= |s| && cutoff >= 1 && Describes(data, s, p, lo, hi, access, cutoff)
    decreases hi - lo
  {
    var it := FindCutoff(access, lo, cutoff, hi);
    if it == hi then Leaf(WritesAt(out + offset, Selected(data.values, s[lo..hi])))
    else Fork([], CopyPlan(data.data[0], s, p, lo, it, out, offset, access, cutoff),
                  CopyPlan(data.data[1], s, p, it, hi, out, offset + data.data[0].trueSize, access, cutoff))
  }

  /** The leaves write to disjoint places that together are exactly those of the sequential copy. */
  lemma {:induction false} CopyPlanContent<T>(data: Data, s: seq<T>, p: T -> bool, lo: int, hi: int, out: int, offset: int,
                                              access: Access, cutoff: int)
    requires 0 <= lo <= hi <= |s| && cutoff >= 1 && Describes(data, s, p, lo, hi, access, cutoff)
    ensures var job := CopyPlan(data, s, p, lo, hi, out, offset, access, cutoff);
            RaceFree(job) && Content(InOrder(job)) == Placed(out + offset, Filter(p, s[lo..hi]))
    decreases hi - lo
  {
    hide RaceFree, InOrder, Content, Placed, Filter, Selected, WritesAt, CountTrue;
    var it := FindCutoff(access, lo, cutoff, hi);
    if it == hi {
      SelectedIsFilter(p, s[lo..hi], data.values);
      ContentWritesAt(out + offset, Selected(data.values, s[lo..hi]));
      LeafIsRaceFree(WritesAt(out + offset, Selected(data.values, s[lo..hi])));
    } else {
      var offset2 := offset + data.data[0].trueSize;
      CopyPlanContent(data.data[0], s, p, lo, it, out, offset, access, cutoff);
      CopyPlanContent(data.data[1], s, p, it, hi, out, offset2, access, cutoff);
      DescribesCount(data.data[0], s, p, lo, it, access, cutoff);
      FilterSplit(p, s, lo, it, hi);
      PlacedConcat(out + offset, Filter(p, s[lo..it]), Filter(p, s[it..hi]));
      EmptyForkContent(CopyPlan(data.data[0], s, p, lo, it, out, offset, access, cutoff),
                       CopyPlan(data.data[1], s, p, it, hi, out, offset2, access, cutoff));
    }
  }

  /** Main result: every run of the second pass leaves what a sequential copy leaves. */
  lemma EveryRunCopies<T(!new)>(data: Data, s: seq<T>, p: T -> bool, lo: int, hi: int, before: seq<T>, out: int,
                                access: Access, cutoff: int, trace: seq<Write<T>>)
    requires 0 <= lo <= hi <= |s| && cutoff >= 1 && Describes(data, s, p, lo, hi, access, cutoff)
    requires 0 <= out && out + |Filter(p, s[lo..hi])| <= |before|
    requires IsRun(CopyPlan(data, s, p, lo, hi, out, 0, access, cutoff), trace)
    ensures Apply(before, trace) == Blit(before, out, Filter(p, s[lo..hi]))
    ensures out + data.trueSize == out + |Filter(p, s[lo..hi])|
  {
    hide Content, Placed, Filter, CopyPlan, IsRun, RaceFree, Apply;
    CopyPlanContent(data, s, p, lo, hi, out, 0, access, cutoff);
    EveryRunPatches(before, CopyPlan(data, s, p, lo, hi, out, 0, access, cutoff), trace);
    PatchPlaced(before, out, Filter(p, s[lo..hi]));
    DescribesCount(data, s, p, lo, hi, access, cutoff);
  }

  // ----- The code -----

  /** The leaf of the first pass. */
  method CountLeaf<T>(s: seq<T>, beg: nat, end: nat, p: T -> bool) returns (data: Data)
    requires beg <= end <= |s|
    ensures data.trueSize == CountTrue(s, p, beg, end) && FlagsOf(p, s[beg..end], data.values) && data.data == []
  {
    var count := 0;
    var values := new bool[end - beg](_ => true);
    for i := 0 to end - beg
      invariant count == CountTrue(s, p, beg, beg + i)
      invariant forall k :: 0 <= k < end - beg ==> values[k] == (k >= i || p(s[beg + k]))
    {
      if p(s[beg + i]) {
        count := count + 1;
      } else {
        values[i] := false;
      }
      CountTrueSplit(s, p, beg, beg + i, beg + i + 1);
      CountTrueHead(s, p, beg + i, beg + i + 1);
    }
    data := Data(count, values[..], []);
  }

  method Part1<T>(s: seq<T>, beg: nat, end: nat, p: T -> bool, access: Access, cutoff: int) returns (data: Data)
    requires beg <= end <= |s| && cutoff >= 1
    ensures Describes(data, s, p, beg, end, access, cutoff)
    decreases end - beg
  {
    var it := FindCutoff(access, beg, cutoff, end);
    if it == end {
      data := CountLeaf(s, beg, end, p);
    } else {
      var left, right;
      if * {
        left := Part1(s, beg, it, p, access, cutoff);
        right := Part1(s, it, end, p, access, cutoff);
      } else {
        right := Part1(s, it, end, p, access, cutoff);
        left := Part1(s, beg, it, p, access, cutoff);
      }
      data := Data(left.trueSize + right.trueSize, [], [left, right]);
    }
  }

  /** What a prefix selects is a prefix of what the whole selects. */
  lemma {:induction false} SelectedPrefix<T>(values: seq<bool>, xs: seq<T>, n: nat, k: nat)
    requires k <= n <= |values| == |xs|
    ensures |Selected(values[..k], xs[..k])| <= |Selected(values[..n], xs[..n])|
    decreases n - k
  {
    if k < n {
      SelectedPrefix(values, xs, n, k + 1);
      SelectNext(values, xs, k);
    }
  }

  lemma SelectNext<T>(values: seq<bool>, xs: seq<T>, k: nat)
    requires k < |values| == |xs|
    ensures Selected(values[..k + 1], xs[..k + 1]) == Selected(values[..k], xs[..k]) + (if values[k] then [xs[k]] else [])
  {
    assert values[..k + 1][..k] == values[..k] && xs[..k + 1][..k] == xs[..k];
  }

  /** The leaf of the second pass. */
  method CopyLeaf<T>(xs: seq<T>, values: seq<bool>, out: array<T>, at: nat)
    requires |values| == |xs| && at + |Selected(values, xs)| <= out.Length
    modifies out
    ensures out[..] == Blit(old(out[..]), at, Selected(values, xs))
  {
    hide Selected, Blit;
    ghost var before := out[..];
    assert values[..|xs|] == values && xs[..|xs|] == xs;
    var o := at;
    SelectNothing(values[..0], xs[..0]);
    BlitNothing(before, at, Selected(values[..0], xs[..0]));
    for k := 0 to |xs|
      invariant o == at + |Selected(values[..k], xs[..k])| <= out.Length
      invariant out[..] == Blit(before, at, Selected(values[..k], xs[..k]))
    {
      SelectNext(values, xs, k);
      SelectedPrefix(values, xs, |xs|, k + 1);
      if values[k] {
        ghost var now := out[..];
        BlitNext(before, at, Selected(values[..k], xs[..k]), xs[k]);
        out[o] := xs[k];
        assert out[..] == now[o := xs[k]];
        o := o + 1;
      } else {
        assert Selected(values[..k], xs[..k]) + [] == Selected(values[..k], xs[..k]);
      }
    }
  }

  lemma SelectNothing<T>(values: seq<bool>, xs: seq<T>)
    requires |values| == |xs| == 0
    ensures Selected(values, xs) == []
  {
  }

  method Part2<T>(data: Data, s: seq<T>, beg: nat, end: nat, ghost p: T -> bool, out: array<T>, at: nat, offset: nat,
                  access: Access, cutoff: int)
    requires beg <= end <= |s| && cutoff >= 1 && Describes(data, s, p, beg, end, access, cutoff)
    requires at + offset + |Filter(p, s[beg..end])| <= out.Length
    modifies out
    ensures out[..] == Blit(old(out[..]), at + offset, Filter(p, s[beg..end]))
    decreases end - beg
  {
    hide Filter, Blit, CountTrue;
    var it := FindCutoff(access, beg, cutoff, end);
    if it == end {
      SelectedIsFilter(p, s[beg..end], data.values);
      CopyLeaf(s[beg..end], data.values, out, at + offset);
    } else {
      var offset2 := offset + data.data[0].trueSize;
      ghost var x, y := Filter(p, s[beg..it]), Filter(p, s[it..end]);
      DescribesCount(data.data[0], s, p, beg, it, access, cutoff);
      FilterSplit(p, s, beg, it, end);
      BlitBlit(out[..], at + offset, x, y);
      BlitsSwap(out[..], at + offset, x, y);
      if * {
        Part2(data.data[0], s, beg, it, p, out, at, offset, access, cutoff);
        Part2(data.data[1], s, it, end, p, out, at, offset2, access, cutoff);
      } else {
        Part2(data.data[1], s, it, end, p, out, at, offset2, access, cutoff);
        Part2(data.data[0], s, beg, it, p, out, at, offset, access, cutoff);
      }
    }
  }

  /** The whole of parallel_copy_if: the sequential result, and the end of it. */
  method ParallelCopyIf<T>(s: seq<T>, beg: nat, end: nat, p: T -> bool, out: array<T>, at: nat, access: Access, cutoff: int)
    returns (res: int)
    requires beg <= end <= |s| && cutoff >= 1 && at + |Filter(p, s[beg..end])| <= out.Length
    modifies out
    ensures out[..] == Blit(old(out[..]), at, Filter(p, s[beg..end]))
    ensures res == at + |Filter(p, s[beg..end])|
  {
    var data := Part1(s, beg, end, p, access, cutoff);
    Part2(data, s, beg, end, p, out, at, 0, access, cutoff);
    DescribesCount(data, s, p, beg, end, access, cutoff);
    res := at + data.trueSize;
  }
}

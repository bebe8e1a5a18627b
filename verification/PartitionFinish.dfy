/** The final callback of parallel_partition: the rests are clipped at the true split point and used up. */
module PartitionFinish {
  import opened Tally
  import opened PartitionProtocol
  import opened PartitionInvariant
  import opened PartitionSteps
  import opened PartitionRuns

  /** All true elements come before all false ones, and split is where the false ones begin. */
  ghost predicate Partitioned<T>(a: seq<T>, p: T -> bool, split: int) {
    0 <= split <= |a| && forall i :: 0 <= i < |a| ==> (p(a[i]) <==> i < split)
  }

  predicate LeftOpen(r: Rests, i: int) {
    r.lbs <= i < r.lbe || InRests(r.lRest, i)
  }

  predicate RightOpen(r: Rests, i: int) {
    r.rbs <= i < r.rbe || InRests(r.rRest, i)
  }

  /** Every false element below split is in the left rests or the open left block; likewise on the right. */
  ghost predicate Outstanding<T>(a: seq<T>, p: T -> bool, split: int, r: Rests) {
    && 0 <= split <= |a| && RestsOrdered(r)
    && (forall i {:trigger LeftOpen(r, i)} :: LeftOpen(r, i) ==> 0 <= i < split)
    && (forall i {:trigger RightOpen(r, i)} :: RightOpen(r, i) ==> split <= i < |a|)
    && (forall i :: 0 <= i < split && !p(a[i]) ==> LeftOpen(r, i))
    && (forall i :: split <= i < |a| && p(a[i]) ==> RightOpen(r, i))
  }

  /** The open blocks lie inside the range, on their own sides of the split point. */
  lemma OpenBlocksInside<T>(a: seq<T>, p: T -> bool, split: int, r: Rests)
    requires Outstanding(a, p, split, r)
    ensures r.lbs < r.lbe ==> 0 <= r.lbs && r.lbe <= split
    ensures r.rbs < r.rbe ==> split <= r.rbs && r.rbe <= |a|
  {
    if r.lbs < r.lbe { assert LeftOpen(r, r.lbs) && LeftOpen(r, r.lbe - 1); }
    if r.rbs < r.rbe { assert RightOpen(r, r.rbs) && RightOpen(r, r.rbe - 1); }
  }

  /** Settled elements at the front of the open blocks may be passed over. */
  lemma PassOver<T>(a: seq<T>, p: T -> bool, split: int, r: Rests)
    requires Outstanding(a, p, split, r)
    ensures r.lbs < r.lbe ==> 0 <= r.lbs < |a| && (p(a[r.lbs]) ==> Outstanding(a, p, split, r.(lbs := r.lbs + 1)))
    ensures r.rbs < r.rbe ==> 0 <= r.rbs < |a| && (!p(a[r.rbs]) ==> Outstanding(a, p, split, r.(rbs := r.rbs + 1)))
  {
    OpenBlocksInside(a, p, split, r);
    assert forall i {:trigger LeftOpen(r.(rbs := r.rbs + 1), i)} :: LeftOpen(r.(rbs := r.rbs + 1), i) == LeftOpen(r, i);
    assert forall i {:trigger RightOpen(r.(lbs := r.lbs + 1), i)} :: RightOpen(r.(lbs := r.lbs + 1), i) == RightOpen(r, i);
    assert forall i {:trigger LeftOpen(r.(lbs := r.lbs + 1), i)} :: LeftOpen(r.(lbs := r.lbs + 1), i) ==> LeftOpen(r, i);
    assert forall i {:trigger RightOpen(r.(rbs := r.rbs + 1), i)} :: RightOpen(r.(rbs := r.rbs + 1), i) ==> RightOpen(r, i);
    assert forall i {:trigger LeftOpen(r, i)} :: LeftOpen(r, i) ==> LeftOpen(r.(lbs := r.lbs + 1), i) || i == r.lbs;
    assert forall i {:trigger RightOpen(r, i)} :: RightOpen(r, i) ==> RightOpen(r.(rbs := r.rbs + 1), i) || i == r.rbs;
  }

  /** Cuts every interval off below the given position. */
  function ClipBelow(rests: seq<Interval>, cut: int): seq<Interval> {
    if rests == [] then []
    else
      var lo := if rests[0].lo < cut then cut else rests[0].lo;
      var hi := if rests[0].hi < cut then cut else rests[0].hi;
      [Interval(lo, hi)] + ClipBelow(rests[1..], cut)
  }

  /** Cuts every interval off above the given position. */
  function ClipAbove(rests: seq<Interval>, cut: int): seq<Interval> {
    if rests == [] then []
    else
      var lo := if rests[0].lo > cut then cut else rests[0].lo;
      var hi := if rests[0].hi > cut then cut else rests[0].hi;
      [Interval(lo, hi)] + ClipAbove(rests[1..], cut)
  }

  lemma {:induction false} ClipMeaning(rests: seq<Interval>, cut: int, i: int)
    requires Ordered(rests)
    ensures Ordered(ClipBelow(rests, cut)) && Ordered(ClipAbove(rests, cut))
    ensures InRests(ClipBelow(rests, cut), i) <==> InRests(rests, i) && cut <= i
    ensures InRests(ClipAbove(rests, cut), i) <==> InRests(rests, i) && i < cut
  {
    if rests != [] {
      ClipMeaning(rests[1..], cut, i);
      assert ClipBelow(rests, cut)[1..] == ClipBelow(rests[1..], cut);
      assert ClipAbove(rests, cut)[1..] == ClipAbove(rests[1..], cut);
    }
  }

  method CutBelow(rests: seq<Interval>, cut: int) returns (clipped: seq<Interval>)
    ensures clipped == ClipBelow(rests, cut)
  {
    clipped := [];
    var i := |rests|;
    while i > 0
      invariant 0 <= i <= |rests| && clipped == ClipBelow(rests[i..], cut)
    {
      i := i - 1;
      var r := rests[i];
      var lo := if r.lo < cut then cut else r.lo;
      var hi := if r.hi < cut then cut else r.hi;
      assert rests[i..][1..] == rests[i + 1..];
      clipped := [Interval(lo, hi)] + clipped;
    }
    assert rests[0..] == rests;
  }

  method CutAbove(rests: seq<Interval>, cut: int) returns (clipped: seq<Interval>)
    ensures clipped == ClipAbove(rests, cut)
  {
    clipped := [];
    var i := |rests|;
    while i > 0
      invariant 0 <= i <= |rests| && clipped == ClipAbove(rests[i..], cut)
    {
      i := i - 1;
      var r := rests[i];
      var lo := if r.lo > cut then cut else r.lo;
      var hi := if r.hi > cut then cut else r.hi;
      assert rests[i..][1..] == rests[i + 1..];
      clipped := [Interval(lo, hi)] + clipped;
    }
    assert rests[0..] == rests;
  }

  /** The same elements in another order, as many of them true. */
  ghost predicate Rearranged<T>(a: seq<T>, b: seq<T>, p: T -> bool) {
    multiset(a) == multiset(b) && |a| == |b| && CountTrue(a, p, 0, |a|) == CountTrue(b, p, 0, |b|)
  }

  /** Exchanging two outstanding elements settles both. */
  lemma OutstandingSwap<T>(a: seq<T>, p: T -> bool, split: int, r: Rests)
    requires Outstanding(a, p, split, r) && r.lbs < r.lbe && r.rbs < r.rbe
    ensures 0 <= r.lbs < split <= r.rbs < |a|
    ensures !p(a[r.lbs]) && p(a[r.rbs]) ==>
              && Outstanding(Swap(a, r.lbs, r.rbs), p, split, r)
              && CountTrue(Swap(a, r.lbs, r.rbs), p, 0, split) == CountTrue(a, p, 0, split) + 1
              && Rearranged(Swap(a, r.lbs, r.rbs), a, p)
  {
    OpenBlocksInside(a, p, split, r);
    if !p(a[r.lbs]) && p(a[r.rbs]) {
      CountTrueSwap(a, p, 0, split, r.lbs, r.rbs);
      CountTrueSwap(a, p, 0, |a|, r.lbs, r.rbs);
      SwapPermutes(a, r.lbs, r.rbs);
    }
  }

  method ScanPastTrue<T>(a: array<T>, p: T -> bool, ghost split: int, r: Rests) returns (lbs: int)
    requires Outstanding(a[..], p, split, r)
    ensures r.lbs <= lbs <= r.lbe && Outstanding(a[..], p, split, r.(lbs := lbs))
    ensures lbs < r.lbe ==> 0 <= lbs < a.Length && !p(a[lbs])
  {
    lbs := r.lbs;
    PassOver(a[..], p, split, r);
    while lbs < r.lbe && p(a[lbs])
      invariant r.lbs <= lbs <= r.lbe && (lbs < r.lbe ==> 0 <= lbs < a.Length)
      invariant Outstanding(a[..], p, split, r.(lbs := lbs))
    {
      PassOver(a[..], p, split, r.(lbs := lbs));
      lbs := lbs + 1;
      PassOver(a[..], p, split, r.(lbs := lbs));
    }
  }

  method ScanPastFalse<T>(a: array<T>, p: T -> bool, ghost split: int, r: Rests) returns (rbs: int)
    requires Outstanding(a[..], p, split, r)
    ensures r.rbs <= rbs <= r.rbe && Outstanding(a[..], p, split, r.(rbs := rbs))
    ensures rbs < r.rbe ==> 0 <= rbs < a.Length && p(a[rbs])
  {
    rbs := r.rbs;
    PassOver(a[..], p, split, r);
    while rbs < r.rbe && !p(a[rbs])
      invariant r.rbs <= rbs <= r.rbe && (rbs < r.rbe ==> 0 <= rbs < a.Length)
      invariant Outstanding(a[..], p, split, r.(rbs := rbs))
    {
      PassOver(a[..], p, split, r.(rbs := rbs));
      rbs := rbs + 1;
      PassOver(a[..], p, split, r.(rbs := rbs));
    }
  }

  /** The inner loop: scan both open blocks and exchange what is on the wrong side until one block is used up. */
  method Neutralise<T>(a: array<T>, p: T -> bool, ghost split: int, rests: Rests) returns (r: Rests)
    requires Outstanding(a[..], p, split, rests)
    modifies a
    ensures r.lRest == rests.lRest && r.rRest == rests.rRest && (r.lbs == r.lbe || r.rbs == r.rbe)
    ensures Outstanding(a[..], p, split, r) && Rearranged(a[..], old(a[..]), p)
  {
    r := rests;
    while true
      invariant r.lRest == rests.lRest && r.rRest == rests.rRest
      invariant Outstanding(a[..], p, split, r) && Rearranged(a[..], old(a[..]), p)
      decreases split - CountTrue(a[..], p, 0, split)
    {
      var lbs := ScanPastTrue(a, p, split, r);
      r := r.(lbs := lbs);
      var rbs := ScanPastFalse(a, p, split, r);
      r := r.(rbs := rbs);
      if r.lbs == r.lbe || r.rbs == r.rbe { return; }
      ghost var before := a[..];
      OutstandingSwap(before, p, split, r);
      CountTrueExtremes(before, p, 0, split);
      a[r.lbs], a[r.rbs] := a[r.rbs], a[r.lbs];
      assert a[..] == Swap(before, r.lbs, r.rbs);
    }
  }

  lemma OutstandingRefill<T>(a: seq<T>, p: T -> bool, split: int, r: Rests)
    requires Outstanding(a, p, split, r) && (r.lbs == r.lbe || r.rbs == r.rbe)
    requires (r.rRest != [] || r.rbs != r.rbe) && (r.lRest != [] || r.lbs != r.lbe)
    ensures Outstanding(a, p, split, Refill(r))
  {
    assert forall i {:trigger LeftOpen(Refill(r), i)} {:trigger LeftOpen(r, i)} :: LeftOpen(Refill(r), i) == LeftOpen(r, i);
    assert forall i {:trigger RightOpen(Refill(r), i)} {:trigger RightOpen(r, i)} :: RightOpen(Refill(r), i) == RightOpen(r, i);
  }

  /** The outer loop: works through both rest lists until one side has nothing left. */
  method DrainRests<T>(a: array<T>, p: T -> bool, ghost split: int, lRest: seq<Interval>, rRest: seq<Interval>)
    returns (ghost left: Rests)
    requires Outstanding(a[..], p, split, Rests(lRest, rRest, 0, 0, a.Length, a.Length))
    modifies a
    ensures Outstanding(a[..], p, split, left)
    ensures (left.lRest == [] && left.lbs == left.lbe) || (left.rRest == [] && left.rbs == left.rbe)
    ensures Rearranged(a[..], old(a[..]), p)
  {
    var r := Rests(lRest, rRest, 0, 0, a.Length, a.Length);
    while (r.rRest != [] || r.rbs != r.rbe) && (r.lRest != [] || r.lbs != r.lbe)
      invariant Outstanding(a[..], p, split, r) && (r.lbs == r.lbe || r.rbs == r.rbe)
      invariant Rearranged(a[..], old(a[..]), p)
      decreases |r.lRest| + |r.rRest|
    {
      OutstandingRefill(a[..], p, split, r);
      r := Neutralise(a, p, split, Refill(r));
    }
    left := r;
  }

  /**
    The clipped rests are outstanding with respect to the true split point: what lies between the
    point where the ends met and the true split point changes sides.
   */
  lemma ClippedRests<T>(a: seq<T>, p: T -> bool, met: int, split: int, lRest: seq<Interval>, rRest: seq<Interval>)
    requires RestsCover(a, p, met, lRest, rRest) && 0 <= split <= |a|
    ensures met <= split ==>
              Outstanding(a, p, split, Rests(lRest + [Interval(met, split)], ClipBelow(rRest, split), 0, 0, |a|, |a|))
    ensures met >= split ==>
              Outstanding(a, p, split, Rests(ClipAbove(lRest, split), rRest + [Interval(split, met)], 0, 0, |a|, |a|))
    ensures met == split ==> Outstanding(a, p, split, Rests(lRest, rRest, 0, 0, |a|, |a|))
  {
    hide InRests, ClipBelow, ClipAbove;
    ClipMeaning(lRest, split, 0);
    ClipMeaning(rRest, split, 0);
    forall i
      ensures InRests(ClipBelow(rRest, split), i) <==> InRests(rRest, i) && split <= i
      ensures InRests(ClipAbove(lRest, split), i) <==> InRests(lRest, i) && i < split
      ensures InRests(lRest + [Interval(met, split)], i) <==> InRests(lRest, i) || met <= i < split
      ensures InRests(rRest + [Interval(split, met)], i) <==> InRests(rRest, i) || split <= i < met
    {
      ClipMeaning(lRest, split, i);
      ClipMeaning(rRest, split, i);
      InRestsConcat(lRest, [Interval(met, split)], i);
      InRestsConcat(rRest, [Interval(split, met)], i);
      InRestsOne(met, split, i);
      InRestsOne(split, met, i);
    }
  }

  /**
    As many false elements lie below the split point as true ones above it, so when one side has
    nothing outstanding, neither has the other.
   */
  lemma NothingOutstanding<T>(a: seq<T>, p: T -> bool, split: int, left: Rests)
    requires Outstanding(a, p, split, left) && split == CountTrue(a, p, 0, |a|)
    requires (left.lRest == [] && left.lbs == left.lbe) || (left.rRest == [] && left.rbs == left.rbe)
    ensures Partitioned(a, p, split)
  {
    CountTrueSplit(a, p, 0, split, |a|);
    CountTrueExtremes(a, p, 0, split);
    CountTrueExtremes(a, p, split, |a|);
    if left.lRest == [] && left.lbs == left.lbe {
      assert forall i {:trigger LeftOpen(left, i)} :: !LeftOpen(left, i);
    } else {
      assert forall i {:trigger RightOpen(left, i)} :: !RightOpen(left, i);
    }
  }

  /** The callback that runs once, after the root task has returned. */
  method FinishPartition<T>(a: array<T>, p: T -> bool, lRest: seq<Interval>, rRest: seq<Interval>, lmove: int, rtrue: int)
    returns (res: int)
    requires RestsCover(a[..], p, lmove, lRest, rRest) && rtrue == CountTrue(a[..], p, 0, a.Length)
    modifies a
    ensures res == rtrue && Partitioned(a[..], p, res) && multiset(a[..]) == multiset(old(a[..]))
  {
    CountTrueExtremes(a[..], p, 0, a.Length);
    ClippedRests(a[..], p, lmove, rtrue, lRest, rRest);
    var l, r := lRest, rRest;
    if lmove < rtrue {
      r := CutBelow(r, rtrue);
      l := l + [Interval(lmove, rtrue)];
    }
    if lmove > rtrue {
      l := CutAbove(l, rtrue);
      r := r + [Interval(rtrue, lmove)];
    }
    ghost var left := DrainRests(a, p, rtrue, l, r);
    NothingOutstanding(a[..], p, rtrue, left);
    res := rtrue;
  }
}

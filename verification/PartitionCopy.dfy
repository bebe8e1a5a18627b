/** parallel_partition_copy: like copy_if, but the second pass writes to two outputs at once. */
module PartitionCopy {
  import opened Tally
  import opened Cutoff
  import opened ForkJoin
  import opened Filtering
  import opened FindAll

  /** What the first pass leaves for the second. */
  datatype Data = Data(partitionTrue: nat, partitionFalse: nat, data: seq<Data>)

  ghost predicate Describes<T>(data: Data, s: seq<T>, p: T -> bool, lo: int, hi: int, access: Access, cutoff: int)
    requires 0 <= lo <= hi <= |s| && cutoff >= 1
    decreases hi - lo
  {
    var it := FindCutoff(access, lo, cutoff, hi);
    if it == hi then data.partitionTrue == CountTrue(s, p, lo, hi) && data.partitionFalse == CountTrue(s, Not(p), lo, hi)
    else
      && |data.data| == 2
      && data.partitionTrue == data.data[0].partitionTrue + data.data[1].partitionTrue
      && data.partitionFalse == data.data[0].partitionFalse + data.data[1].partitionFalse
      && Describes(data.data[0], s, p, lo, it, access, cutoff) && Describes(data.data[1], s, p, it, hi, access, cutoff)
  }

  lemma {:induction false} DescribesCounts<T>(data: Data, s: seq<T>, p: T -> bool, lo: int, hi: int, access: Access, cutoff: int)
    requires 0 <= lo <= hi <= |s| && cutoff >= 1 && Describes(data, s, p, lo, hi, access, cutoff)
    ensures data.partitionTrue == |Filter(p, s[lo..hi])| && data.partitionFalse == |Filter(Not(p), s[lo..hi])|
    decreases hi - lo
  {
    hide Filter, CountTrue;
    var it := FindCutoff(access, lo, cutoff, hi);
    if it == hi {
      FilterCount(p, s, lo, hi);
      FilterCount(Not(p), s, lo, hi);
    } else {
      DescribesCounts(data.data[0], s, p, lo, it, access, cutoff);
      DescribesCounts(data.data[1], s, p, it, hi, access, cutoff);
      FilterSplit(p, s, lo, it, hi);
      FilterSplit(Not(p), s, lo, it, hi);
    }
  }

  /** The writes of one leaf, in the order in which it makes them; t and f are the next places of the two outputs. */
  ghost function LeafWrites<T>(s: seq<T>, p: T -> bool, lo: int, hi: int, t: int, f: int): seq<Write<T>>
    requires 0 <= lo <= hi <= |s|
    decreases hi - lo
  {
    if lo == hi then []
    else
      var k := hi - 1;
      LeafWrites(s, p, lo, k, t, f)
        + [if p(s[k]) then Write(t + |Filter(p, s[lo..k])|, s[k]) else Write(f + |Filter(Not(p), s[lo..k])|, s[k])]
  }

  /** The tasks of the second pass. */
  ghost function CopyPlan<T>(data: Data, s: seq<T>, p: T -> bool, lo: int, hi: int, t: int, f: int, access: Access, cutoff: int): Job<T>
    requires 0 <= lo <= hi <= |s| && cutoff >= 1 && Describes(data, s, p, lo, hi, access, cutoff)
    decreases hi - lo
  {
    var it := FindCutoff(access, lo, cutoff, hi);
    if it == hi then Leaf(LeafWrites(s, p, lo, hi, t, f))
    else Fork([], CopyPlan(data.data[0], s, p, lo, it, t, f, access, cutoff),
                  CopyPlan(data.data[1], s, p, it, hi, t + data.data[0].partitionTrue, f + data.data[0].partitionFalse, access, cutoff))
  }

  /** Both outputs of a range. */
  ghost function Outputs<T>(s: seq<T>, p: T -> bool, lo: int, hi: int, t: int, f: int): map<int, T>
    requires 0 <= lo <= hi <= |s|
  {
    Placed(t, Filter(p, s[lo..hi])) + Placed(f, Filter(Not(p), s[lo..hi]))
  }

  /** The two outputs of a range do not overlap. */
  ghost predicate Apart<T>(s: seq<T>, p: T -> bool, lo: int, hi: int, t: int, f: int)
    requires 0 <= lo <= hi <= |s|
  {
    t + |Filter(p, s[lo..hi])| <= f || f + |Filter(Not(p), s[lo..hi])| <= t
  }

  lemma FourPlaces<T>(t: int, a: seq<T>, b: seq<T>, f: int, c: seq<T>, d: seq<T>)
    requires t + |a| + |b| <= f || f + |c| + |d| <= t
    ensures var l, r := Placed(t, a) + Placed(f, c), Placed(t + |a|, b) + Placed(f + |c|, d);
            l.Keys !! r.Keys && l + r == Placed(t, a + b) + Placed(f, c + d)
  {
    hide Placed;
    PlacedConcat(t, a, b);
    PlacedConcat(f, c, d);
    PlacedApart(t, a + b, f, c + d);
    FourMaps(Placed(t, a), Placed(t + |a|, b), Placed(f, c), Placed(f + |c|, d));
  }

  lemma PlacedApart<T>(t: int, x: seq<T>, f: int, y: seq<T>)
    requires t + |x| <= f || f + |y| <= t
    ensures Placed(t, x).Keys !! Placed(f, y).Keys
  {
  }

  lemma FourMaps<K, V>(a: map<K, V>, b: map<K, V>, c: map<K, V>, d: map<K, V>)
    requires a.Keys !! b.Keys && c.Keys !! d.Keys && (a + b).Keys !! (c + d).Keys
    ensures (a + c).Keys !! (b + d).Keys && (a + c) + (b + d) == (a + b) + (c + d)
  {
  }

  /** Cutting a range cuts both of its outputs. */
  lemma OutputsSplit<T>(s: seq<T>, p: T -> bool, lo: int, mid: int, hi: int, t: int, f: int)
    requires 0 <= lo <= mid <= hi <= |s| && Apart(s, p, lo, hi, t, f)
    ensures var t2, f2 := t + |Filter(p, s[lo..mid])|, f + |Filter(Not(p), s[lo..mid])|;
            && Apart(s, p, lo, mid, t, f) && Apart(s, p, mid, hi, t2, f2)
            && Outputs(s, p, lo, hi, t, f) == Outputs(s, p, lo, mid, t, f) + Outputs(s, p, mid, hi, t2, f2)
            && Outputs(s, p, lo, mid, t, f).Keys !! Outputs(s, p, mid, hi, t2, f2).Keys
  {
    hide Filter, Placed;
    FilterSplit(p, s, lo, mid, hi);
    FilterSplit(Not(p), s, lo, mid, hi);
    FourPlaces(t, Filter(p, s[lo..mid]), Filter(p, s[mid..hi]), f, Filter(Not(p), s[lo..mid]), Filter(Not(p), s[mid..hi]));
  }

  lemma OutputsOne<T>(s: seq<T>, p: T -> bool, k: int, t: int, f: int)
    requires 0 <= k < |s|
    ensures Outputs(s, p, k, k + 1, t, f) == map[(if p(s[k]) then t else f) := s[k]]
  {
    hide Filter, Placed;
    FilterNext(p, s, k, k);
    FilterNext(Not(p), s, k, k);
    FilterEmpty(p, s, k);
    FilterEmpty(Not(p), s, k);
    var none: seq<T> := [];
    assert none + [s[k]] == [s[k]] && none + none == none;
    PlacedFew(t, s[k]);
    PlacedFew(f, s[k]);
  }

  lemma PlacedFew<T>(at: int, x: T)
    ensures Placed(at, [x]) == map[at := x] && forall i {:trigger Placed<T>(i, [])} :: Placed<T>(i, []) == map[]
  {
  }

  lemma LeafWritesNext<T>(s: seq<T>, p: T -> bool, lo: int, hi: int, t: int, f: int)
    requires 0 <= lo < hi <= |s|
    ensures var k := hi - 1;
            var at := if p(s[k]) then t + |Filter(p, s[lo..k])| else f + |Filter(Not(p), s[lo..k])|;
            LeafWrites(s, p, lo, hi, t, f) == LeafWrites(s, p, lo, k, t, f) + [Write(at, s[k])]
  {
  }

  lemma NoWrites<T>(s: seq<T>, p: T -> bool, lo: int, t: int, f: int)
    requires 0 <= lo <= |s|
    ensures Content(LeafWrites(s, p, lo, lo, t, f)) == Outputs(s, p, lo, lo, t, f)
  {
  }

  lemma ContentOne<T>(trace: seq<Write<T>>, w: Write<T>)
    ensures Content(trace + [w]) == Content(trace) + map[w.pos := w.value]
  {
  }

  lemma {:induction false} LeafContent<T>(s: seq<T>, p: T -> bool, lo: int, hi: int, t: int, f: int)
    requires 0 <= lo <= hi <= |s| && Apart(s, p, lo, hi, t, f)
    ensures Content(LeafWrites(s, p, lo, hi, t, f)) == Outputs(s, p, lo, hi, t, f)
    decreases hi - lo
  {
    hide Content, Outputs, Filter, Apart, LeafWrites;
    if lo == hi {
      NoWrites(s, p, lo, t, f);
      return;
    }
    LeafWritesNext(s, p, lo, hi, t, f);
    var k := hi - 1;
    OutputsSplit(s, p, lo, k, hi, t, f);
    LeafContent(s, p, lo, k, t, f);
    var t2, f2 := t + |Filter(p, s[lo..k])|, f + |Filter(Not(p), s[lo..k])|;
    var before, w := LeafWrites(s, p, lo, k, t, f), Write(if p(s[k]) then t2 else f2, s[k]);
    ContentOne(before, w);
    OutputsOne(s, p, k, t2, f2);
    assert LeafWrites(s, p, lo, hi, t, f) == before + [w];
    assert Content(before + [w]) == Outputs(s, p, lo, k, t, f) + Outputs(s, p, k, hi, t2, f2);
  }

  /** All leaves of both outputs write to different places, and together they write both filtered sequences. */
  lemma {:induction false} CopyPlanContent<T>(data: Data, s: seq<T>, p: T -> bool, lo: int, hi: int, t: int, f: int, access: Access, cutoff: int)
    requires 0 <= lo <= hi <= |s| && cutoff >= 1 && Describes(data, s, p, lo, hi, access, cutoff) && Apart(s, p, lo, hi, t, f)
    ensures RaceFree(CopyPlan(data, s, p, lo, hi, t, f, access, cutoff))
    ensures Content(InOrder(CopyPlan(data, s, p, lo, hi, t, f, access, cutoff))) == Outputs(s, p, lo, hi, t, f)
    decreases hi - lo
  {
    hide Content, Outputs, Filter, CountTrue, Apart, LeafWrites;
    var it := FindCutoff(access, lo, cutoff, hi);
    if it == hi {
      LeafContent(s, p, lo, hi, t, f);
    } else {
      var l, r := data.data[0], data.data[1];
      var t2, f2 := t + l.partitionTrue, f + l.partitionFalse;
      DescribesCounts(l, s, p, lo, it, access, cutoff);
      OutputsSplit(s, p, lo, it, hi, t, f);
      CopyPlanContent(l, s, p, lo, it, t, f, access, cutoff);
      CopyPlanContent(r, s, p, it, hi, t2, f2, access, cutoff);
      EmptyForkContent(CopyPlan(l, s, p, lo, it, t, f, access, cutoff), CopyPlan(r, s, p, it, hi, t2, f2, access, cutoff));
    }
  }

  /** Main result: in whatever order the writes take effect, both outputs are those of the sequential algorithm. */
  lemma EveryRunCopies<T(!new)>(data: Data, s: seq<T>, p: T -> bool, lo: int, hi: int, memory: seq<T>, t: int, f: int,
                                access: Access, cutoff: int, trace: seq<Write<T>>)
    requires 0 <= lo <= hi <= |s| && cutoff >= 1 && Describes(data, s, p, lo, hi, access, cutoff) && Apart(s, p, lo, hi, t, f)
    requires 0 <= t && t + |Filter(p, s[lo..hi])| <= |memory| && 0 <= f && f + |Filter(Not(p), s[lo..hi])| <= |memory|
    requires IsRun(CopyPlan(data, s, p, lo, hi, t, f, access, cutoff), trace)
    ensures Apply(memory, trace) == Blit(Blit(memory, t, Filter(p, s[lo..hi])), f, Filter(Not(p), s[lo..hi]))
  {
    hide Content, Placed, Filter, CopyPlan, IsRun, RaceFree, Apply;
    CopyPlanContent(data, s, p, lo, hi, t, f, access, cutoff);
    EveryRunPatches(memory, CopyPlan(data, s, p, lo, hi, t, f, access, cutoff), trace);
    PatchBoth(memory, t, Filter(p, s[lo..hi]), f, Filter(Not(p), s[lo..hi]));
  }

  lemma PatchBoth<T>(memory: seq<T>, t: int, x: seq<T>, f: int, y: seq<T>)
    requires 0 <= t && t + |x| <= |memory| && 0 <= f && f + |y| <= |memory|
    ensures Patch(memory, Placed(t, x) + Placed(f, y)) == Blit(Blit(memory, t, x), f, y)
  {
    PatchPlaced(memory, t, x);
    PatchPlaced(Blit(memory, t, x), f, y);
    assert Patch(memory, Placed(t, x) + Placed(f, y)) == Patch(Patch(memory, Placed(t, x)), Placed(f, y));
  }

  // ----- The code -----

  method CountLeaf<T>(s: seq<T>, beg: nat, end: nat, p: T -> bool) returns (data: Data)
    requires beg <= end <= |s|
    ensures data == Data(CountTrue(s, p, beg, end), CountTrue(s, Not(p), beg, end), [])
  {
    var countTrue, countFalse := 0, 0;
    for i := beg to end
      invariant countTrue == CountTrue(s, p, beg, i) && countFalse == CountTrue(s, Not(p), beg, i)
    {
      if p(s[i]) {
        countTrue := countTrue + 1;
      } else {
        countFalse := countFalse + 1;
      }
      CountTrueSplit(s, p, beg, i, i + 1);
      CountTrueHead(s, p, i, i + 1);
      CountTrueSplit(s, Not(p), beg, i, i + 1);
      CountTrueHead(s, Not(p), i, i + 1);
    }
    data := Data(countTrue, countFalse, []);
  }

  method Part1<T>(s: seq<T>, beg: nat, end: nat, p: T -> bool, access: Access, cutoff: int) returns (data: Data)
    requires beg <= end <= |s| && cutoff >= 1
    ensures Describes(data, s, p, beg, end, access, cutoff)
    decreases end - beg
  {
    var it := FindCutoff(access, beg, cutoff, end);
    if it == end {
      data := CountLeaf(s, beg, end, p);
    } else {
      var left, right;
      if * {
        left := Part1(s, beg, it, p, access, cutoff);
        right := Part1(s, it, end, p, access, cutoff);
      } else {
        right := Part1(s, it, end, p, access, cutoff);
        left := Part1(s, beg, it, p, access, cutoff);
      }
      data := Data(left.partitionTrue + right.partitionTrue, left.partitionFalse + right.partitionFalse, [left, right]);
    }
  }

  /** The leaf of the second pass, on two separate outputs; t and f are the ends of what it wrote. */
  method CopyLeaf<T>(s: seq<T>, beg: nat, end: nat, p: T -> bool, outTrue: array<T>, outFalse: array<T>, at: nat, af: nat)
    returns (t: int, f: int)
    requires beg <= end <= |s| && outTrue != outFalse
    requires at + |Filter(p, s[beg..end])| <= outTrue.Length && af + |Filter(Not(p), s[beg..end])| <= outFalse.Length
    modifies outTrue, outFalse
    ensures outTrue[..] == Blit(old(outTrue[..]), at, Filter(p, s[beg..end]))
    ensures outFalse[..] == Blit(old(outFalse[..]), af, Filter(Not(p), s[beg..end]))
    ensures t == at + |Filter(p, s[beg..end])| && f == af + |Filter(Not(p), s[beg..end])|
  {
    hide Filter, Blit;
    ghost var beforeT, beforeF := outTrue[..], outFalse[..];
    t, f := at, af;
    var k := beg;
    FilterEmpty(p, s, beg);
    FilterEmpty(Not(p), s, beg);
    BlitNothing(beforeT, at, Filter(p, s[beg..beg]));
    BlitNothing(beforeF, af, Filter(Not(p), s[beg..beg]));
    while k != end
      invariant beg <= k <= end
      invariant t == at + |Filter(p, s[beg..k])| && f == af + |Filter(Not(p), s[beg..k])|
      invariant at + |Filter(p, s[beg..k])| <= outTrue.Length && af + |Filter(Not(p), s[beg..k])| <= outFalse.Length
      invariant outTrue[..] == Blit(beforeT, at, Filter(p, s[beg..k]))
      invariant outFalse[..] == Blit(beforeF, af, Filter(Not(p), s[beg..k]))
      decreases end - k
    {
      ghost var x, y := Filter(p, s[beg..k]), Filter(Not(p), s[beg..k]);
      FilterNext(p, s, beg, k);
      FilterNext(Not(p), s, beg, k);
      FilterSplit(p, s, beg, k + 1, end);
      FilterSplit(Not(p), s, beg, k + 1, end);
      assert x + [] == x && y + [] == y;
      if p(s[k]) {
        WriteNext(outTrue, t, s[k], beforeT, at, x);
        t := t + 1;
      } else {
        WriteNext(outFalse, f, s[k], beforeF, af, y);
        f := f + 1;
      }
      k := k + 1;
    }
  }

  lemma FilterEmpty<T>(p: T -> bool, s: seq<T>, i: int)
    requires 0 <= i <= |s|
    ensures Filter(p, s[i..i]) == []
  {
  }

  method WriteNext<T>(out: array<T>, o: nat, x: T, ghost before: seq<T>, ghost at: nat, ghost done: seq<T>)
    requires o == at + |done| < out.Length == |before| && out[..] == Blit(before, at, done)
    modifies out
    ensures out[..] == Blit(before, at, done + [x])
  {
    hide Blit;
    ghost var now := out[..];
    BlitNext(before, at, done, x);
    out[o] := x;
    assert out[..] == now[o := x];
  }

  method Part2<T>(data: Data, s: seq<T>, beg: nat, end: nat, p: T -> bool, outTrue: array<T>, outFalse: array<T>, at: nat, af: nat,
                  access: Access, cutoff: int) returns (t: int, f: int)
    requires beg <= end <= |s| && cutoff >= 1 && Describes(data, s, p, beg, end, access, cutoff) && outTrue != outFalse
    requires at + |Filter(p, s[beg..end])| <= outTrue.Length && af + |Filter(Not(p), s[beg..end])| <= outFalse.Length
    modifies outTrue, outFalse
    ensures outTrue[..] == Blit(old(outTrue[..]), at, Filter(p, s[beg..end]))
    ensures outFalse[..] == Blit(old(outFalse[..]), af, Filter(Not(p), s[beg..end]))
    ensures t == at + |Filter(p, s[beg..end])| && f == af + |Filter(Not(p), s[beg..end])|
    decreases end - beg
  {
    hide Filter, Blit, CountTrue;
    var it := FindCutoff(access, beg, cutoff, end);
    if it == end {
      t, f := CopyLeaf(s, beg, end, p, outTrue, outFalse, at, af);
    } else {
      var l, r := data.data[0], data.data[1];
      var at2, af2 := at + l.partitionTrue, af + l.partitionFalse;
      ghost var x1, x2 := Filter(p, s[beg..it]), Filter(p, s[it..end]);
      ghost var y1, y2 := Filter(Not(p), s[beg..it]), Filter(Not(p), s[it..end]);
      DescribesCounts(l, s, p, beg, it, access, cutoff);
      FilterSplit(p, s, beg, it, end);
      FilterSplit(Not(p), s, beg, it, end);
      BlitBlit(outTrue[..], at, x1, x2);
      BlitBlit(outFalse[..], af, y1, y2);
      BlitsSwap(outTrue[..], at, x1, x2);
      BlitsSwap(outFalse[..], af, y1, y2);
      if * {
        var _, _ := Part2(l, s, beg, it, p, outTrue, outFalse, at, af, access, cutoff);
        t, f := Part2(r, s, it, end, p, outTrue, outFalse, at2, af2, access, cutoff);
      } else {
        t, f := Part2(r, s, it, end, p, outTrue, outFalse, at2, af2, access, cutoff);
        var _, _ := Part2(l, s, beg, it, p, outTrue, outFalse, at, af, access, cutoff);
      }
    }
  }

  /** The whole of parallel_partition_copy: both filtered sequences, and both ends. */
  method ParallelPartitionCopy<T>(s: seq<T>, beg: nat, end: nat, p: T -> bool, outTrue: array<T>, outFalse: array<T>,
                                  access: Access, cutoff: int) returns (t: int, f: int)
    requires beg <= end <= |s| && cutoff >= 1 && outTrue != outFalse
    requires |Filter(p, s[beg..end])| <= outTrue.Length && |Filter(Not(p), s[beg..end])| <= outFalse.Length
    modifies outTrue, outFalse
    ensures outTrue[..] == Blit(old(outTrue[..]), 0, Filter(p, s[beg..end]))
    ensures outFalse[..] == Blit(old(outFalse[..]), 0, Filter(Not(p), s[beg..end]))
    ensures t == |Filter(p, s[beg..end])| && f == |Filter(Not(p), s[beg..end])| && t + f == end - beg
  {
    var data := Part1(s, beg, end, p, access, cutoff);
    t, f := Part2(data, s, beg, end, p, outTrue, outFalse, 0, 0, access, cutoff);
    NothingLost(s, beg, end, p);
  }

  lemma {:induction false} NothingLost<T>(s: seq<T>, lo: int, hi: int, p: T -> bool)
    requires 0 <= lo <= hi <= |s|
    ensures |Filter(p, s[lo..hi])| + |Filter(Not(p), s[lo..hi])| == hi - lo
    decreases hi - lo
  {
    if lo < hi {
      NothingLost(s, lo, hi - 1, p);
      FilterNext(p, s, lo, hi - 1);
      FilterNext(Not(p), s, lo, hi - 1);
    }
  }
}

/**
  parallel_scan as the exclusive scans use it: a first pass reduces every block from a default value and
  combines the results up a tree, a second pass over the same tree hands every block the value to start from.
 */
module ParallelScan {
  import opened Cutoff
  import opened ForkJoin

  /** What the first pass leaves for the second. */
  datatype Data<V> = Data(value: V, data: seq<Data<V>>)

  function Fold<V>(f: (V, V) -> V, init: V, xs: seq<V>): V {
    if xs == [] then init else f(Fold(f, init, xs[..|xs| - 1]), xs[|xs| - 1])
  }

  /** The sequential exclusive scan: at every position the fold of what comes before it. */
  function ScanFrom<V>(f: (V, V) -> V, init: V, xs: seq<V>): seq<V> {
    if xs == [] then [] else ScanFrom(f, init, xs[..|xs| - 1]) + [Fold(f, init, xs[..|xs| - 1])]
  }

  ghost predicate Associative<V(!new)>(f: (V, V) -> V) {
    forall x, y, z {:trigger f(f(x, y), z)} {:trigger f(x, f(y, z))} :: f(f(x, y), z) == f(x, f(y, z))
  }

  /** Between two values the default value makes no difference. */
  ghost predicate Neutral<V(!new)>(f: (V, V) -> V, zero: V) {
    forall x, y {:trigger f(f(x, zero), y)} :: f(f(x, zero), y) == f(x, y)
  }

  lemma {:induction false} FoldConcat<V>(f: (V, V) -> V, init: V, a: seq<V>, b: seq<V>)
    ensures Fold(f, init, a + b) == Fold(f, Fold(f, init, a), b)
    ensures ScanFrom(f, init, a + b) == ScanFrom(f, init, a) + ScanFrom(f, Fold(f, init, a), b)
    decreases |b|
  {
    if b == [] {
      assert a + b == a;
    } else {
      var n := |b| - 1;
      assert (a + b)[..|a + b| - 1] == a + b[..n];
      FoldConcat(f, init, a, b[..n]);
    }
  }

  lemma {:induction false} ScanMeaning<V>(f: (V, V) -> V, init: V, xs: seq<V>)
    ensures |ScanFrom(f, init, xs)| == |xs|
    ensures forall i :: 0 <= i < |xs| ==> ScanFrom(f, init, xs)[i] == Fold(f, init, xs[..i])
  {
    if xs != [] {
      var front := xs[..|xs| - 1];
      ScanMeaning(f, init, front);
      assert forall i :: 0 <= i < |front| ==> xs[..i] == front[..i];
    }
  }

  /** A block that was reduced from the default value can be put after any other value. */
  lemma {:induction false} ReducedBlock<V(!new)>(f: (V, V) -> V, zero: V, init: V, xs: seq<V>)
    requires Associative(f) && Neutral(f, zero) && xs != []
    ensures f(init, Fold(f, zero, xs)) == Fold(f, init, xs)
  {
    var front, x := xs[..|xs| - 1], xs[|xs| - 1];
    assert f(init, f(Fold(f, zero, front), x)) == f(f(init, Fold(f, zero, front)), x);
    if front != [] {
      ReducedBlock(f, zero, init, front);
    }
  }

  /** The tree that the first pass builds. */
  ghost predicate Describes<V>(data: Data<V>, f: (V, V) -> V, zero: V, xs: seq<V>, lo: int, hi: int, access: Access, cutoff: int)
    requires 0 <= lo <= hi <= |xs| && cutoff >= 1
    decreases hi - lo
  {
    var it := FindCutoff(access, lo, cutoff, hi);
    if it == hi then data.value == Fold(f, zero, xs[lo..hi])
    else
      && |data.data| == 2 && data.value == f(data.data[0].value, data.data[1].value)
      && Describes(data.data[0], f, zero, xs, lo, it, access, cutoff) && Describes(data.data[1], f, zero, xs, it, hi, access, cutoff)
  }

  lemma {:induction false} DescribesFold<V(!new)>(data: Data<V>, f: (V, V) -> V, zero: V, xs: seq<V>, lo: int, hi: int,
                                                  access: Access, cutoff: int)
    requires 0 <= lo <= hi <= |xs| && cutoff >= 1 && Describes(data, f, zero, xs, lo, hi, access, cutoff)
    requires Associative(f) && Neutral(f, zero)
    ensures data.value == Fold(f, zero, xs[lo..hi])
    decreases hi - lo
  {
    hide Associative, Neutral, Fold;
    var it := FindCutoff(access, lo, cutoff, hi);
    if it != hi {
      DescribesFold(data.data[0], f, zero, xs, lo, it, access, cutoff);
      DescribesFold(data.data[1], f, zero, xs, it, hi, access, cutoff);
      ReducedBlock(f, zero, Fold(f, zero, xs[lo..it]), xs[it..hi]);
      FoldConcat(f, zero, xs[lo..it], xs[it..hi]);
      assert xs[lo..hi] == xs[lo..it] + xs[it..hi];
    }
  }

  /** The tasks of the second pass. */
  ghost function ScanPlan<V>(data: Data<V>, f: (V, V) -> V, zero: V, xs: seq<V>, lo: int, hi: int, out: int, init: V,
                             access: Access, cutoff: int): Job<V>
    requires 0 <= lo <= hi <= |xs| && cutoff >= 1 && Describes(data, f, zero, xs, lo, hi, access, cutoff)
    decreases hi - lo
  {
    var it := FindCutoff(access, lo, cutoff, hi);
    if it == hi then Leaf(WritesAt(out, ScanFrom(f, init, xs[lo..hi])))
    else Fork([], ScanPlan(data.data[0], f, zero, xs, lo, it, out, init, access, cutoff),
                  ScanPlan(data.data[1], f, zero, xs, it, hi, out + (it - lo), f(init, data.data[0].value), access, cutoff))
  }

  /** The value the right subtask starts from is the fold of everything before it. */
  lemma RightInit<V(!new)>(data: Data<V>, f: (V, V) -> V, zero: V, xs: seq<V>, lo: int, it: int, hi: int, init: V, access: Access, cutoff: int)
    requires 0 <= lo < it <= hi <= |xs| && cutoff >= 1 && Describes(data, f, zero, xs, lo, it, access, cutoff)
    requires Associative(f) && Neutral(f, zero)
    ensures f(init, data.value) == Fold(f, init, xs[lo..it])
    ensures ScanFrom(f, init, xs[lo..hi]) == ScanFrom(f, init, xs[lo..it]) + ScanFrom(f, f(init, data.value), xs[it..hi])
  {
    hide Associative, Neutral, Fold, ScanFrom, Describes;
    DescribesFold(data, f, zero, xs, lo, it, access, cutoff);
    ReducedBlock(f, zero, init, xs[lo..it]);
    FoldConcat(f, init, xs[lo..it], xs[it..hi]);
    assert xs[lo..hi] == xs[lo..it] + xs[it..hi];
  }

  lemma {:induction false} ScanPlanContent<V(!new)>(data: Data<V>, f: (V, V) -> V, zero: V, xs: seq<V>, lo: int, hi: int, out: int, init: V,
                                                    access: Access, cutoff: int)
    requires 0 <= lo <= hi <= |xs| && cutoff >= 1 && Describes(data, f, zero, xs, lo, hi, access, cutoff)
    requires Associative(f) && Neutral(f, zero)
    ensures var job := ScanPlan(data, f, zero, xs, lo, hi, out, init, access, cutoff);
            RaceFree(job) && Content(InOrder(job)) == Placed(out, ScanFrom(f, init, xs[lo..hi]))
    decreases hi - lo
  {
    hide Associative, Neutral, Fold, ScanFrom, Content, InOrder, RaceFree, Placed, WritesAt;
    var it := FindCutoff(access, lo, cutoff, hi);
    if it == hi {
      ContentWritesAt(out, ScanFrom(f, init, xs[lo..hi]));
      LeafIsRaceFree(WritesAt(out, ScanFrom(f, init, xs[lo..hi])));
    } else {
      var l, r := data.data[0], data.data[1];
      var rightInit := f(init, l.value);
      RightInit(l, f, zero, xs, lo, it, hi, init, access, cutoff);
      ScanPlanContent(l, f, zero, xs, lo, it, out, init, access, cutoff);
      ScanPlanContent(r, f, zero, xs, it, hi, out + (it - lo), rightInit, access, cutoff);
      ScanMeaning(f, init, xs[lo..it]);
      PlacedConcat(out, ScanFrom(f, init, xs[lo..it]), ScanFrom(f, rightInit, xs[it..hi]));
      EmptyForkContent(ScanPlan(l, f, zero, xs, lo, it, out, init, access, cutoff),
                       ScanPlan(r, f, zero, xs, it, hi, out + (it - lo), rightInit, access, cutoff));
    }
  }

  /** Main result: every interleaving of the second pass leaves the sequential exclusive scan. */
  lemma EveryRunScans<V(!new)>(data: Data<V>, f: (V, V) -> V, zero: V, xs: seq<V>, lo: int, hi: int, before: seq<V>, out: int, init: V,
                               access: Access, cutoff: int, trace: seq<Write<V>>)
    requires 0 <= lo <= hi <= |xs| && cutoff >= 1 && Describes(data, f, zero, xs, lo, hi, access, cutoff)
    requires Associative(f) && Neutral(f, zero) && 0 <= out && out + (hi - lo) <= |before|
    requires IsRun(ScanPlan(data, f, zero, xs, lo, hi, out, init, access, cutoff), trace)
    ensures |ScanFrom(f, init, xs[lo..hi])| == hi - lo
    ensures Apply(before, trace) == Blit(before, out, ScanFrom(f, init, xs[lo..hi]))
  {
    hide Associative, Neutral, Fold, ScanFrom, ScanPlan, IsRun, Apply, Content, InOrder, RaceFree, Placed;
    ScanMeaning(f, init, xs[lo..hi]);
    ScanPlanContent(data, f, zero, xs, lo, hi, out, init, access, cutoff);
    EveryRunPatches(before, ScanPlan(data, f, zero, xs, lo, hi, out, init, access, cutoff), trace);
    PatchPlaced(before, out, ScanFrom(f, init, xs[lo..hi]));
  }

  // ----- What the default value has to be -----

  /** The values that a tree of cuts starts its blocks from are those of the sequential scan. */
  ghost predicate Agrees<V(!new)>(f: (V, V) -> V, zero: V) {
    forall init, xs: seq<V> | xs != [] :: f(init, Fold(f, zero, xs)) == Fold(f, init, xs)
  }

  lemma FoldOne<V>(f: (V, V) -> V, init: V, y: V)
    ensures Fold(f, init, [y]) == f(init, y)
  {
    assert [y][..0] == [];
  }

  /**
    The blocks start from the right values for all inputs exactly when the default value is neutral: it is
    for sums, but not, say, for products of numbers, which are reduced from zero.
   */
  lemma AgreesExactly<V(!new)>(f: (V, V) -> V, zero: V)
    requires Associative(f)
    ensures Agrees(f, zero) <==> Neutral(f, zero)
  {
    if Neutral(f, zero) {
      forall init, xs: seq<V> | xs != []
        ensures f(init, Fold(f, zero, xs)) == Fold(f, init, xs)
      {
        ReducedBlock(f, zero, init, xs);
      }
    } else {
      var x, y :| f(f(x, zero), y) != f(x, y);
      var xs := [y];
      FoldOne(f, zero, y);
      FoldOne(f, x, y);
      assert f(x, f(zero, y)) == f(f(x, zero), y);
      assert xs != [] && f(x, Fold(f, zero, xs)) != Fold(f, x, xs);
    }
  }

  // ----- The code -----

  /** The reduction of one block, from the default value. */
  method Reduce<V>(f: (V, V) -> V, zero: V, xs: seq<V>, beg: nat, end: nat) returns (r: V)
    requires beg <= end <= |xs|
    ensures r == Fold(f, zero, xs[beg..end])
  {
    r := zero;
    for i := beg to end
      invariant r == Fold(f, zero, xs[beg..i])
    {
      assert xs[beg..i + 1][..i - beg] == xs[beg..i];
      r := f(r, xs[i]);
    }
  }

  method Part1<V>(f: (V, V) -> V, zero: V, xs: seq<V>, beg: nat, end: nat, access: Access, cutoff: int) returns (data: Data<V>)
    requires beg <= end <= |xs| && cutoff >= 1
    ensures Describes(data, f, zero, xs, beg, end, access, cutoff)
    decreases end - beg
  {
    var it := FindCutoff(access, beg, cutoff, end);
    if it == end {
      var value := Reduce(f, zero, xs, beg, end);
      data := Data(value, []);
    } else {
      var left, right;
      if * {
        left := Part1(f, zero, xs, beg, it, access, cutoff);
        right := Part1(f, zero, xs, it, end, access, cutoff);
      } else {
        right := Part1(f, zero, xs, it, end, access, cutoff);
        left := Part1(f, zero, xs, beg, it, access, cutoff);
      }
      data := Data(f(left.value, right.value), [left, right]);
    }
  }

  /** The scan of one block. */
  method ScanLeaf<V>(f: (V, V) -> V, xs: seq<V>, start: V, out: array<V>, at: nat)
    requires at + |xs| <= out.Length
    modifies out
    ensures |ScanFrom(f, start, xs)| == |xs| && out[..] == Blit(old(out[..]), at, ScanFrom(f, start, xs))
  {
    hide Fold, ScanFrom, Blit;
    ghost var before := out[..];
    var init := start;
    ScanNothing(f, start, xs[..0]);
    BlitNothing(before, at, ScanFrom(f, start, xs[..0]));
    for i := 0 to |xs|
      invariant init == Fold(f, start, xs[..i])
      invariant |ScanFrom(f, start, xs[..i])| == i && out[..] == Blit(before, at, ScanFrom(f, start, xs[..i]))
    {
      ghost var now := out[..];
      BlitNext(before, at, ScanFrom(f, start, xs[..i]), init);
      ScanNext(f, start, xs, i);
      out[at + i] := init;
      assert out[..] == now[at + i := init];
      init := f(init, xs[i]);
    }
    assert xs[..|xs|] == xs;
  }

  lemma ScanNothing<V>(f: (V, V) -> V, init: V, xs: seq<V>)
    requires xs == []
    ensures ScanFrom(f, init, xs) == [] && Fold(f, init, xs) == init
  {
  }

  lemma ScanNext<V>(f: (V, V) -> V, init: V, xs: seq<V>, i: nat)
    requires i < |xs|
    ensures ScanFrom(f, init, xs[..i + 1]) == ScanFrom(f, init, xs[..i]) + [Fold(f, init, xs[..i])]
    ensures Fold(f, init, xs[..i + 1]) == f(Fold(f, init, xs[..i]), xs[i])
  {
    assert xs[..i + 1][..i] == xs[..i];
  }

  method Part2<V(!new)>(data: Data<V>, f: (V, V) -> V, ghost zero: V, xs: seq<V>, beg: nat, end: nat, out: array<V>, at: nat, init: V,
                        access: Access, cutoff: int)
    requires beg <= end <= |xs| && cutoff >= 1 && Describes(data, f, zero, xs, beg, end, access, cutoff)
    requires Associative(f) && Neutral(f, zero) && at + (end - beg) <= out.Length
    modifies out
    ensures |ScanFrom(f, init, xs[beg..end])| == end - beg
    ensures out[..] == Blit(old(out[..]), at, ScanFrom(f, init, xs[beg..end]))
    decreases end - beg
  {
    hide Associative, Neutral, Fold, ScanFrom, Blit;
    var it := FindCutoff(access, beg, cutoff, end);
    if it == end {
      ScanLeaf(f, xs[beg..end], init, out, at);
    } else {
      var l, r := data.data[0], data.data[1];
      var rightInit := f(init, l.value);
      ghost var x, y := ScanFrom(f, init, xs[beg..it]), ScanFrom(f, rightInit, xs[it..end]);
      RightInit(l, f, zero, xs, beg, it, end, init, access, cutoff);
      ScanMeaning(f, init, xs[beg..it]);
      ScanMeaning(f, rightInit, xs[it..end]);
      BlitBlit(out[..], at, x, y);
      BlitsSwap(out[..], at, x, y);
      if * {
        Part2(l, f, zero, xs, beg, it, out, at, init, access, cutoff);
        Part2(r, f, zero, xs, it, end, out, at + (it - beg), rightInit, access, cutoff);
      } else {
        Part2(r, f, zero, xs, it, end, out, at + (it - beg), rightInit, access, cutoff);
        Part2(l, f, zero, xs, beg, it, out, at, init, access, cutoff);
      }
    }
  }

  /** Both passes. What is returned is the total without the initial value. */
  method ParallelExclusiveScan<V(!new)>(f: (V, V) -> V, zero: V, xs: seq<V>, out: array<V>, init: V, access: Access, cutoff: int)
    returns (total: V)
    requires Associative(f) && Neutral(f, zero) && cutoff >= 1 && |xs| <= out.Length
    modifies out
    ensures |ScanFrom(f, init, xs)| == |xs| && out[..] == Blit(old(out[..]), 0, ScanFrom(f, init, xs))
    ensures total == Fold(f, zero, xs)
  {
    var data := Part1(f, zero, xs, 0, |xs|, access, cutoff);
    Part2(data, f, zero, xs, 0, |xs|, out, 0, init, access, cutoff);
    DescribesFold(data, f, zero, xs, 0, |xs|, access, cutoff);
    assert xs[0..|xs|] == xs;
    total := data.value;
  }
}

/** parallel_merge: two sorted ranges are merged by placing the middle of the longer one and merging both sides of it. */
module ParallelMerge {
  import opened Ordering
  import opened Filtering
  import opened ForkJoin

  /** The sequential merge that runs below the cutoff; equivalent elements of the first range come first. */
  function SeqMerge<T>(less: (T, T) -> bool, a: seq<T>, b: seq<T>): seq<T> {
    if a == [] then b
    else if b == [] then a
    else if less(b[0], a[0]) then [b[0]] + SeqMerge(less, a, b[1..])
    else [a[0]] + SeqMerge(less, a[1..], b)
  }

  /** The first position whose element is not less than v. */
  function LowerBound<T>(less: (T, T) -> bool, s: seq<T>, v: T): (k: nat)
    ensures k <= |s| && (forall i :: 0 <= i < k ==> less(s[i], v)) && (k < |s| ==> !less(s[k], v))
  {
    if s == [] || !less(s[0], v) then 0 else 1 + LowerBound(less, s[1..], v)
  }

  /** What one task tree leaves in the output slots. */
  function Merged<T>(less: (T, T) -> bool, a: seq<T>, b: seq<T>, cutoff: int): seq<T>
    decreases |a| + |b|, 1
  {
    if |a| + |b| <= cutoff then SeqMerge(less, a, b)
    else if |a| >= |b| then (if |a| == 0 then [] else Halved(less, a, b, cutoff))
    else Halved(less, b, a, cutoff)
  }

  /** The longer range is halved around its middle element, the other one at that element's lower bound. */
  function Halved<T>(less: (T, T) -> bool, long: seq<T>, short: seq<T>, cutoff: int): seq<T>
    requires |long| > 0
    decreases |long| + |short|, 0
  {
    var i1 := |long| / 2;
    var i2 := LowerBound(less, short, long[i1]);
    Merged(less, long[..i1], short[..i2], cutoff) + [long[i1]] + Merged(less, long[i1 + 1..], short[i2..], cutoff)
  }

  /** The tasks that parallel_merge posts, with the writes each of them makes. */
  function Plan<T>(less: (T, T) -> bool, a: seq<T>, b: seq<T>, out: int, cutoff: int): Job<T>
    decreases |a| + |b|, 1
  {
    if |a| + |b| <= cutoff then Leaf(WritesAt(out, SeqMerge(less, a, b)))
    else if |a| >= |b| then (if |a| == 0 then Leaf([]) else HalvedPlan(less, a, b, out, cutoff))
    else HalvedPlan(less, b, a, out, cutoff)
  }

  function HalvedPlan<T>(less: (T, T) -> bool, long: seq<T>, short: seq<T>, out: int, cutoff: int): Job<T>
    requires |long| > 0
    decreases |long| + |short|, 0
  {
    var i1 := |long| / 2;
    var i2 := LowerBound(less, short, long[i1]);
    var i3 := out + i1 + i2;
    Fork([Write(i3, long[i1])],
         Plan(less, long[..i1], short[..i2], out, cutoff),
         Plan(less, long[i1 + 1..], short[i2..], i3 + 1, cutoff))
  }

  // ----- The result is the sorted permutation -----

  lemma {:induction false} SeqMergePermutes<T>(less: (T, T) -> bool, a: seq<T>, b: seq<T>)
    ensures multiset(SeqMerge(less, a, b)) == multiset(a) + multiset(b)
    decreases |a| + |b|
  {
    if a != [] && b != [] {
      assert a == [a[0]] + a[1..] && b == [b[0]] + b[1..];
      if less(b[0], a[0]) {
        SeqMergePermutes(less, a, b[1..]);
      } else {
        SeqMergePermutes(less, a[1..], b);
      }
    }
  }

  /** An element that is not above either input is not above their merge. */
  lemma FirstNotAbove<T>(less: (T, T) -> bool, x: T, a: seq<T>, b: seq<T>, m: seq<T>)
    requires NotAbove(less, [x], a) && NotAbove(less, [x], b) && multiset(m) == multiset(a) + multiset(b)
    ensures NotAbove(less, [x], m)
  {
    assert NotAbove(less, [x], a + b) && multiset(a + b) == multiset(a) + multiset(b);
    NotAbovePermuted(less, [x], a + b, [x], m);
  }

  lemma {:induction false} SeqMergeSorted<T(!new)>(less: (T, T) -> bool, a: seq<T>, b: seq<T>)
    requires StrictWeakOrder(less) && Sorted(less, a) && Sorted(less, b)
    ensures Sorted(less, SeqMerge(less, a, b))
    decreases |a| + |b|
  {
    if a != [] && b != [] {
      if less(b[0], a[0]) {
        SeqMergeSorted(less, a, b[1..]);
        SeqMergePermutes(less, a, b[1..]);
        FirstNotAbove(less, b[0], a, b[1..], SeqMerge(less, a, b[1..]));
        SortedConcat(less, [b[0]], SeqMerge(less, a, b[1..]));
      } else {
        SeqMergeSorted(less, a[1..], b);
        SeqMergePermutes(less, a[1..], b);
        FirstNotAbove(less, a[0], a[1..], b, SeqMerge(less, a[1..], b));
        SortedConcat(less, [a[0]], SeqMerge(less, a[1..], b));
      }
    }
  }

  function EquivalentTo<T>(less: (T, T) -> bool, v: T): T -> bool {
    x => !less(x, v) && !less(v, x)
  }

  /** An element that is smaller than the first one of a sorted sequence is equivalent to none of it. */
  lemma SmallerIsDifferent<T(!new)>(less: (T, T) -> bool, a: seq<T>, x: T, v: T)
    requires StrictWeakOrder(less) && Sorted(less, a) && a != [] && less(x, a[0]) && EquivalentTo(less, v)(x)
    ensures Filter(EquivalentTo(less, v), a) == []
  {
    forall i | 0 <= i < |a|
      ensures !EquivalentTo(less, v)(a[i])
    {
      assert i > 0 ==> !less(a[i], a[0]);
      assert less(x, a[i]);
      assert less(v, a[i]) || less(x, v);
    }
    FilterNothing(EquivalentTo(less, v), a);
  }

  /** The sequential merge is stable: elements that are equivalent to each other keep their order, those of a first. */
  lemma {:induction false} SeqMergeStable<T(!new)>(less: (T, T) -> bool, a: seq<T>, b: seq<T>, v: T)
    requires StrictWeakOrder(less) && Sorted(less, a) && Sorted(less, b)
    ensures var p := EquivalentTo(less, v); Filter(p, SeqMerge(less, a, b)) == Filter(p, a) + Filter(p, b)
    decreases |a| + |b|
  {
    hide StrictWeakOrder;
    var p := EquivalentTo(less, v);
    if a != [] && b != [] {
      if less(b[0], a[0]) {
        SortedSlice(less, b, 1, |b|);
        assert b[1..|b|] == b[1..];
        SeqMergeStable(less, a, b[1..], v);
        FilterConcat(p, [b[0]], SeqMerge(less, a, b[1..]));
        FilterConcat(p, [b[0]], b[1..]);
        assert b == [b[0]] + b[1..];
        if p(b[0]) {
          SmallerIsDifferent(less, a, b[0], v);
        } else {
          FilterNothing(p, [b[0]]);
        }
      } else {
        SortedSlice(less, a, 1, |a|);
        assert a[1..|a|] == a[1..];
        SeqMergeStable(less, a[1..], b, v);
        FilterConcat(p, [a[0]], SeqMerge(less, a[1..], b));
        FilterConcat(p, [a[0]], a[1..]);
        assert a == [a[0]] + a[1..];
        Associative(Filter(p, [a[0]]), Filter(p, a[1..]), Filter(p, b));
      }
    }
  }

  /** So is a merge that is small enough for one task. */
  lemma SmallMergeStable<T(!new)>(less: (T, T) -> bool, a: seq<T>, b: seq<T>, cutoff: int, v: T)
    requires StrictWeakOrder(less) && Sorted(less, a) && Sorted(less, b) && |a| + |b| <= cutoff
    ensures var p := EquivalentTo(less, v); Filter(p, Merged(less, a, b, cutoff)) == Filter(p, a) + Filter(p, b)
  {
    hide Filter;
    SeqMergeStable(less, a, b, v);
  }

  /** A merge that is cut is not: a longer second range is exchanged with the first one. */
  lemma CutMergeIsNotStable<T(!new)>(less: (T, T) -> bool, x: T, y: T, cutoff: int)
    requires StrictWeakOrder(less) && EquivalentTo(less, y)(x) && cutoff < 3
    ensures Merged(less, [x], [y, y], cutoff) == [y, y, x]
  {
    assert [y, y][..1] == [y] && [y, y][2..] == [];
    assert [x][..0] == [] && [x][0..] == [x];
    OneElement(less, x, cutoff);
    OneElement(less, y, cutoff);
    assert Merged(less, [x], [y, y], cutoff) == Halved(less, [y, y], [x], cutoff);
  }

  /** Ranges of the same length are not exchanged. */
  lemma SameLengthKeepsOrder<T(!new)>(less: (T, T) -> bool, x: T, y: T, cutoff: int)
    requires StrictWeakOrder(less) && EquivalentTo(less, y)(x)
    ensures Merged(less, [x], [y], cutoff) == [x, y]
  {
    var none: seq<T> := [];
    assert [x][..0] == none && [x][1..] == none && [y][..0] == none && [y][0..] == [y];
    OneElement(less, y, cutoff);
    assert Merged(less, none, none, cutoff) == none;
    if cutoff < 2 {
      assert Merged(less, [x], [y], cutoff) == Halved(less, [x], [y], cutoff);
    } else {
      assert SeqMerge(less, [x], [y]) == [x] + SeqMerge(less, none, [y]);
    }
  }

  lemma OneElement<T>(less: (T, T) -> bool, x: T, cutoff: int)
    ensures Merged(less, [x], [], cutoff) == [x] && Merged(less, [], [x], cutoff) == [x]
  {
    var none: seq<T> := [];
    assert [x][..0] == none && [x][1..] == none && none[..0] == none && none[0..] == none;
    assert Merged(less, none, none, cutoff) == none;
    assert Halved(less, [x], none, cutoff) == none + [x] + none;
  }

  lemma {:induction false} MergedPermutes<T>(less: (T, T) -> bool, a: seq<T>, b: seq<T>, cutoff: int)
    ensures multiset(Merged(less, a, b, cutoff)) == multiset(a) + multiset(b)
    ensures |Merged(less, a, b, cutoff)| == |a| + |b|
    decreases |a| + |b|, 1
  {
    if |a| + |b| <= cutoff {
      SeqMergePermutes(less, a, b);
    } else if |a| >= |b| {
      if |a| > 0 { HalvedPermutes(less, a, b, cutoff); }
    } else {
      HalvedPermutes(less, b, a, cutoff);
    }
    assert |multiset(Merged(less, a, b, cutoff))| == |Merged(less, a, b, cutoff)|;
  }

  /**
    The middle element of the longer range is put at its final place by the first task: after the first half of its
    own range and the elements of the other one that are less than it.
   */
  lemma PivotPlaced<T>(less: (T, T) -> bool, a: seq<T>, b: seq<T>, cutoff: int)
    requires |a| + |b| > cutoff && |a| + |b| > 0
    ensures var (long, short) := if |a| >= |b| then (a, b) else (b, a);
            var at := |long| / 2 + LowerBound(less, short, long[|long| / 2]);
            && at < |Merged(less, a, b, cutoff)| && Merged(less, a, b, cutoff)[at] == long[|long| / 2]
  {
    var (long, short) := if |a| >= |b| then (a, b) else (b, a);
    var i1 := |long| / 2;
    var i2 := LowerBound(less, short, long[i1]);
    MergedPermutes(less, long[..i1], short[..i2], cutoff);
    MergedPermutes(less, long[i1 + 1..], short[i2..], cutoff);
    assert Merged(less, a, b, cutoff) == Halved(less, long, short, cutoff);
  }

  lemma CutPermutes<T>(s: seq<T>, i: nat)
    requires i <= |s|
    ensures multiset(s) == multiset(s[..i]) + multiset(s[i..])
    ensures i < |s| ==> multiset(s[i..]) == multiset{s[i]} + multiset(s[i + 1..])
  {
    assert s == s[..i] + s[i..];
    if i < |s| { assert s[i..] == [s[i]] + s[i + 1..]; }
  }

  lemma Regroup<T>(a: multiset<T>, p: multiset<T>, b: multiset<T>, c: multiset<T>, d: multiset<T>)
    ensures (a + c) + p + (b + d) == (a + (p + b)) + (c + d)
  {
  }

  lemma PivotPermutes<T>(l: seq<T>, p: T, r: seq<T>)
    ensures multiset(l + [p] + r) == multiset(l) + multiset{p} + multiset(r)
  {
  }

  lemma {:induction false} HalvedPermutes<T>(less: (T, T) -> bool, long: seq<T>, short: seq<T>, cutoff: int)
    requires |long| > 0
    ensures multiset(Halved(less, long, short, cutoff)) == multiset(long) + multiset(short)
    decreases |long| + |short|, 0
  {
    var i1 := |long| / 2;
    var i2 := LowerBound(less, short, long[i1]);
    hide Merged, LowerBound;
    var l, r := Merged(less, long[..i1], short[..i2], cutoff), Merged(less, long[i1 + 1..], short[i2..], cutoff);
    MergedPermutes(less, long[..i1], short[..i2], cutoff);
    MergedPermutes(less, long[i1 + 1..], short[i2..], cutoff);
    CutPermutes(long, i1);
    CutPermutes(short, i2);
    PivotPermutes(l, long[i1], r);
    Regroup(multiset(long[..i1]), multiset{long[i1]}, multiset(long[i1 + 1..]), multiset(short[..i2]), multiset(short[i2..]));
  }

  /** The middle element separates what its two neighbours merge. */
  lemma PivotSeparates<T(!new)>(less: (T, T) -> bool, long: seq<T>, short: seq<T>, i1: int, i2: int)
    requires StrictWeakOrder(less) && Sorted(less, long) && Sorted(less, short)
    requires 0 <= i1 < |long| && i2 == LowerBound(less, short, long[i1])
    ensures NotAbove(less, long[..i1] + short[..i2], [long[i1]])
    ensures NotAbove(less, [long[i1]], long[i1 + 1..] + short[i2..])
    ensures NotAbove(less, long[..i1] + short[..i2], long[i1 + 1..] + short[i2..])
  {
  }

  lemma {:induction false} MergedSorted<T(!new)>(less: (T, T) -> bool, a: seq<T>, b: seq<T>, cutoff: int)
    requires StrictWeakOrder(less) && Sorted(less, a) && Sorted(less, b)
    ensures Sorted(less, Merged(less, a, b, cutoff))
    decreases |a| + |b|, 1
  {
    if |a| + |b| <= cutoff {
      SeqMergeSorted(less, a, b);
    } else if |a| >= |b| {
      if |a| > 0 { HalvedSorted(less, a, b, cutoff); }
    } else {
      HalvedSorted(less, b, a, cutoff);
    }
  }

  lemma {:induction false} HalvedSorted<T(!new)>(less: (T, T) -> bool, long: seq<T>, short: seq<T>, cutoff: int)
    requires StrictWeakOrder(less) && Sorted(less, long) && Sorted(less, short) && |long| > 0
    ensures Sorted(less, Halved(less, long, short, cutoff))
    decreases |long| + |short|, 0
  {
    var i1 := |long| / 2;
    var p := long[i1];
    var i2 := LowerBound(less, short, p);
    var l, r := Merged(less, long[..i1], short[..i2], cutoff), Merged(less, long[i1 + 1..], short[i2..], cutoff);
    MergedSorted(less, long[..i1], short[..i2], cutoff);
    MergedSorted(less, long[i1 + 1..], short[i2..], cutoff);
    MergedPermutes(less, long[..i1], short[..i2], cutoff);
    MergedPermutes(less, long[i1 + 1..], short[i2..], cutoff);
    PivotSeparates(less, long, short, i1, i2);
    var l0, r0 := long[..i1] + short[..i2], long[i1 + 1..] + short[i2..];
    assert multiset(l) == multiset(l0) && multiset(r) == multiset(r0);
    NotAbovePermuted(less, l0, [p], l, [p]);
    NotAbovePermuted(less, [p], r0, [p], r);
    NotAbovePermuted(less, l0, r0, l, r);
    SortedConcat(less, l, [p]);
    SortedConcat(less, l + [p], r);
  }

  // ----- Every order in which the tasks can run gives that result -----

  lemma {:induction false} PlanContent<T>(less: (T, T) -> bool, a: seq<T>, b: seq<T>, out: int, cutoff: int)
    ensures RaceFree(Plan(less, a, b, out, cutoff))
    ensures Content(InOrder(Plan(less, a, b, out, cutoff))) == Placed(out, Merged(less, a, b, cutoff))
    decreases |a| + |b|, 1
  {
    if |a| + |b| <= cutoff {
      ContentWritesAt(out, SeqMerge(less, a, b));
    } else if |a| >= |b| {
      if |a| > 0 { HalvedPlanContent(less, a, b, out, cutoff); }
    } else {
      HalvedPlanContent(less, b, a, out, cutoff);
    }
  }

  lemma PivotContent<T>(at: int, l: seq<T>, p: T, r: seq<T>, left: Job<T>, right: Job<T>)
    requires RaceFree(left) && Content(InOrder(left)) == Placed(at, l)
    requires RaceFree(right) && Content(InOrder(right)) == Placed(at + |l| + 1, r)
    ensures RaceFree(Fork([Write(at + |l|, p)], left, right))
    ensures Content(InOrder(Fork([Write(at + |l|, p)], left, right))) == Placed(at, l + [p] + r)
  {
    hide Placed, RaceFree, InOrder, Content;
    var w := [Write(at + |l|, p)];
    var a, b, c := Placed(at, l), Placed(at + |l|, [p]), Placed(at + |l| + 1, r);
    PlacedConcat(at, l, [p]);
    PlacedConcat(at, l + [p], r);
    assert |l + [p]| == |l| + 1 && a.Keys !! c.Keys;
    ForkContent(w, left, right);
    assert Content(w) == b by {
      assert WritesAt(at + |l|, [p]) == w;
      ContentWritesAt(at + |l|, [p]);
    }
    UnionCommutes(a, b);
  }

  lemma UnionCommutes<K, V>(m: map<K, V>, n: map<K, V>)
    requires m.Keys !! n.Keys
    ensures m + n == n + m
  {
  }

  lemma {:induction false} HalvedPlanContent<T>(less: (T, T) -> bool, long: seq<T>, short: seq<T>, out: int, cutoff: int)
    requires |long| > 0
    ensures RaceFree(HalvedPlan(less, long, short, out, cutoff))
    ensures Content(InOrder(HalvedPlan(less, long, short, out, cutoff))) == Placed(out, Halved(less, long, short, cutoff))
    decreases |long| + |short|, 0
  {
    var i1 := |long| / 2;
    var i2 := LowerBound(less, short, long[i1]);
    hide RaceFree, Content, InOrder, Placed, Merged, Plan, LowerBound;
    var i3 := out + i1 + i2;
    var l, r := Merged(less, long[..i1], short[..i2], cutoff), Merged(less, long[i1 + 1..], short[i2..], cutoff);
    var left := Plan(less, long[..i1], short[..i2], out, cutoff);
    var right := Plan(less, long[i1 + 1..], short[i2..], i3 + 1, cutoff);
    PlanContent(less, long[..i1], short[..i2], out, cutoff);
    PlanContent(less, long[i1 + 1..], short[i2..], i3 + 1, cutoff);
    MergedPermutes(less, long[..i1], short[..i2], cutoff);
    assert out + |l| == i3;
    PivotContent(out, l, long[i1], r, left, right);
  }

  /** Main result: for every cutoff and every interleaving, exactly the reserved slots hold the sorted permutation of both inputs. */
  lemma EveryMergeSorts<T(!new)>(less: (T, T) -> bool, a: seq<T>, b: seq<T>, out: seq<T>, at: nat, cutoff: int, trace: seq<Write<T>>)
    requires StrictWeakOrder(less) && Sorted(less, a) && Sorted(less, b) && at + |a| + |b| <= |out|
    requires IsRun(Plan(less, a, b, at, cutoff), trace)
    ensures exists m :: |m| == |a| + |b| && Apply(out, trace) == Blit(out, at, m)
                        && Sorted(less, m) && multiset(m) == multiset(a) + multiset(b)
  {
    var m := Merged(less, a, b, cutoff);
    MergedPermutes(less, a, b, cutoff);
    MergedSorted(less, a, b, cutoff);
    PlanContent(less, a, b, at, cutoff);
    EveryRunPatches(out, Plan(less, a, b, at, cutoff), trace);
    PatchPlaced(out, at, m);
  }

  /** The recursion on arrays, with the two subtasks in either order. */
  method Merge<T>(less: (T, T) -> bool, a: seq<T>, b: seq<T>, out: array<T>, at: nat, cutoff: int)
    requires at + |a| + |b| <= out.Length
    modifies out
    ensures |Merged(less, a, b, cutoff)| == |a| + |b| && out[..] == Blit(old(out[..]), at, Merged(less, a, b, cutoff))
    decreases |a| + |b|, 3
  {
    MergedPermutes(less, a, b, cutoff);
    if |a| + |b| <= cutoff {
      var m := SeqMerge(less, a, b);
      forall i | 0 <= i < |m| {
        out[at + i] := m[i];
      }
    } else if |a| >= |b| {
      if |a| == 0 { return; }
      MergeHalves(less, a, b, out, at, cutoff);
    } else {
      MergeHalves(less, b, a, out, at, cutoff);
    }
  }

  lemma BlitAround<T>(out: seq<T>, at: int, l: seq<T>, p: T, r: seq<T>)
    requires 0 <= at && at + |l| + 1 + |r| <= |out|
    ensures Blit(Blit(out[at + |l| := p], at, l), at + |l| + 1, r) == Blit(out, at, l + [p] + r)
  {
  }

  method MergeHalves<T>(less: (T, T) -> bool, long: seq<T>, short: seq<T>, out: array<T>, at: nat, cutoff: int)
    requires |long| > 0 && at + |long| + |short| <= out.Length
    modifies out
    ensures |Halved(less, long, short, cutoff)| == |long| + |short|
    ensures out[..] == Blit(old(out[..]), at, Halved(less, long, short, cutoff))
    decreases |long| + |short|, 2
  {
    hide Merged, Blit, LowerBound;
    var i1 := |long| / 2;
    var i2 := LowerBound(less, short, long[i1]);
    var i3 := at + (i1 + i2);
    MergedPermutes(less, long[..i1], short[..i2], cutoff);
    MergedPermutes(less, long[i1 + 1..], short[i2..], cutoff);
    BlitAround(out[..], at, Merged(less, long[..i1], short[..i2], cutoff), long[i1],
               Merged(less, long[i1 + 1..], short[i2..], cutoff));
    ghost var placed := out[..][i3 := long[i1]];
    out[i3] := long[i1];
    assert out[..] == placed;
    MergeBoth(less, long[..i1], short[..i2], long[i1 + 1..], short[i2..], out, at, i3 + 1, cutoff);
  }

  /** The two subtasks, in either order. */
  method MergeBoth<T>(less: (T, T) -> bool, a1: seq<T>, b1: seq<T>, a2: seq<T>, b2: seq<T>, out: array<T>,
                      at1: nat, at2: nat, cutoff: int)
    requires at1 + |a1| + |b1| <= at2 && at2 + |a2| + |b2| <= out.Length
    modifies out
    ensures |Merged(less, a1, b1, cutoff)| == |a1| + |b1| && |Merged(less, a2, b2, cutoff)| == |a2| + |b2|
    ensures out[..] == Blit(Blit(old(out[..]), at1, Merged(less, a1, b1, cutoff)), at2, Merged(less, a2, b2, cutoff))
    decreases |a1| + |b1| + |a2| + |b2|, 4
  {
    MergedPermutes(less, a1, b1, cutoff);
    MergedPermutes(less, a2, b2, cutoff);
    BlitsCommute(out[..], at1, Merged(less, a1, b1, cutoff), at2, Merged(less, a2, b2, cutoff));
    if * {
      Merge(less, a1, b1, out, at1, cutoff);
      Merge(less, a2, b2, out, at2, cutoff);
    } else {
      Merge(less, a2, b2, out, at2, cutoff);
      Merge(less, a1, b1, out, at1, cutoff);
    }
  }

  lemma BlitsCommute<T>(out: seq<T>, at1: int, xs: seq<T>, at2: int, ys: seq<T>)
    requires 0 <= at1 && at1 + |xs| <= at2 && at2 + |ys| <= |out|
    ensures Blit(Blit(out, at1, xs), at2, ys) == Blit(Blit(out, at2, ys), at1, xs)
  {
  }

  // ----- Balance -----

  /** Each subtask gets at most three quarters of its parent's elements. */
  lemma Balance<T>(less: (T, T) -> bool, long: seq<T>, short: seq<T>)
    requires |long| > 0 && |long| >= |short|
    ensures var i1 := |long| / 2; var i2 := LowerBound(less, short, long[i1]);
            && 4 * (i1 + i2) <= 3 * (|long| + |short|)
            && 4 * ((|long| - i1 - 1) + (|short| - i2)) <= 3 * (|long| + |short|)
  {
  }

  function Depth<T>(job: Job<T>): nat {
    match job
    case Leaf(_) => 0
    case Fork(_, l, r) => 1 + (if Depth(l) > Depth(r) then Depth(l) else Depth(r))
    case Then(first, next) => Depth(first) + Depth(next)
  }

  function Pow(b: nat, e: nat): nat {
    if e == 0 then 1 else b * Pow(b, e - 1)
  }

  /** The depth of the task tree is logarithmic: (4/3)^(depth - 1) is at most the number of elements. */
  lemma {:induction false} DepthIsLogarithmic<T>(less: (T, T) -> bool, a: seq<T>, b: seq<T>, out: int, cutoff: int)
    ensures var d := Depth(Plan(less, a, b, out, cutoff));
            d > 0 ==> Pow(4, d - 1) <= Pow(3, d - 1) * (|a| + |b|)
    decreases |a| + |b|, 1
  {
    if |a| + |b| > cutoff {
      if |a| >= |b| {
        if |a| > 0 { HalvedDepth(less, a, b, out, cutoff); }
      } else {
        HalvedDepth(less, b, a, out, cutoff);
      }
    }
  }

  lemma {:induction false} HalvedDepth<T>(less: (T, T) -> bool, long: seq<T>, short: seq<T>, out: int, cutoff: int)
    requires |long| > 0 && |long| >= |short|
    ensures var d := Depth(HalvedPlan(less, long, short, out, cutoff)); Pow(4, d - 1) <= Pow(3, d - 1) * (|long| + |short|)
    decreases |long| + |short|, 0
  {
    hide Plan, Pow, LowerBound;
    var n := |long| + |short|;
    var i1 := |long| / 2;
    var i2 := LowerBound(less, short, long[i1]);
    Balance(less, long, short);
    DepthIsLogarithmic(less, long[..i1], short[..i2], out, cutoff);
    DepthIsLogarithmic(less, long[i1 + 1..], short[i2..], out + i1 + i2 + 1, cutoff);
    ChildDepth(Depth(Plan(less, long[..i1], short[..i2], out, cutoff)), i1 + i2, n);
    ChildDepth(Depth(Plan(less, long[i1 + 1..], short[i2..], out + i1 + i2 + 1, cutoff)), |long| - i1 - 1 + |short| - i2, n);
  }

  lemma ChildDepth(d: nat, child: nat, n: nat)
    requires 4 * child <= 3 * n && n > 0
    requires d > 0 ==> Pow(4, d - 1) <= Pow(3, d - 1) * child
    ensures Pow(4, d) <= Pow(3, d) * n
  {
  }
}

/**
  The merge sort of parallel_sort with tasks that read the memory as they find it, while any other tasks
  write. A trace holds all writes of all tasks; a set of indices says which of them belong to one level.
 */
module SortReads {
  import opened Cutoff
  import opened Ordering
  import opened ForkJoin
  import opened ParallelMerge
  import opened ParallelSort
  import opened SortRuns

  /** The writes of z whose indices are in own, in their order. */
  ghost function Extract<T>(z: seq<Write<T>>, own: set<nat>): seq<Write<T>> {
    if z == [] then []
    else if |z| - 1 in own then Extract(z[..|z| - 1], own) + [z[|z| - 1]]
    else Extract(z[..|z| - 1], own)
  }

  /**
    How the tasks of one level went. A leaf found its range when at writes had been made; a level with
    subtasks saw both of them end, their writes being l and r, and then found x and y to merge.
   */
  datatype History<T> =
    | LeafTask(at: nat, found: seq<T>)
    | MergeTask(at: nat, l: set<nat>, r: set<nat>, x: seq<T>, y: seq<T>, left: History<T>, right: History<T>)

  /** From then on, a leaf makes the writes that reverse what it found or sort it. */
  ghost predicate SortsLeaf<T>(less: (T, T) -> bool, memory: seq<T>, z: seq<Write<T>>, own: set<nat>, lo: int, n: nat, h: History<T>) {
    && h.LeafTask? && h.at <= |z| && (forall k :: k in own ==> h.at <= k)
    && |h.found| == n && Holds(Apply(memory, z[..h.at]), lo, h.found)
    && Extract(z, own) == LeafWrites(less, h.found, lo)
  }

  /** The halves write before, the merge writes after it has found what lies on their side. */
  ghost predicate MergesFound<T(!new)>(less: (T, T) -> bool, memory: seq<T>, z: seq<Write<T>>, own: set<nat>, lo: int, bu: int, n: nat,
                                       depth: nat, cutoff: int, h: History<T>)
  {
    && h.MergeTask? && h.at <= |z| && h.l !! h.r && h.l + h.r <= own
    && (forall k :: k in h.l + h.r ==> k < h.at) && (forall k :: k in own - (h.l + h.r) ==> h.at <= k)
    && |h.x| == FindCutoff(RandomAccess, 0, cutoff, n) && |h.x| + |h.y| == n
    && Holds(Apply(memory, z[..h.at]), Side(depth + 1, lo, bu), h.x)
    && Holds(Apply(memory, z[..h.at]), Side(depth + 1, lo, bu) + |h.x|, h.y)
    && IsRun(Plan(less, h.x, h.y, Side(depth, lo, bu), cutoff), Extract(z, own - (h.l + h.r)))
  }

  /** The writes own of z are made by the tasks of one level, on n elements from lo on and a buffer from bu on. */
  ghost predicate Sorts<T(!new)>(less: (T, T) -> bool, memory: seq<T>, z: seq<Write<T>>, own: set<nat>, lo: int, bu: int, n: nat,
                                 depth: nat, cutoff: int, h: History<T>)
    decreases h
  {
    if FindCutoff(RandomAccess, 0, cutoff, n) == n && Even(depth) then SortsLeaf(less, memory, z, own, lo, n, h)
    else
      && MergesFound(less, memory, z, own, lo, bu, n, depth, cutoff, h)
      && Sorts(less, memory, z[..h.at], h.l, lo, bu, |h.x|, depth + 1, cutoff, h.left)
      && Sorts(less, memory, z[..h.at], h.r, lo + |h.x|, bu + |h.x|, |h.y|, depth + 1, cutoff, h.right)
  }

  /** All other writes lie outside the range and the buffer of the level. */
  ghost predicate OthersElsewhere<T>(z: seq<Write<T>>, own: set<nat>, lo: int, bu: int, n: nat) {
    forall k :: 0 <= k < |z| && k !in own ==> Elsewhere(z[k].pos, lo, bu, n)
  }

  predicate Elsewhere(pos: int, lo: int, bu: int, n: nat) {
    !(lo <= pos < lo + n) && !(bu <= pos < bu + n)
  }

  // ----- Traces and extracts -----

  lemma ApplyLast<T>(memory: seq<T>, z: seq<Write<T>>, w: Write<T>)
    ensures Apply(memory, z + [w]) == Put(Apply(memory, z), w)
  {
    ApplyConcat(memory, z, [w]);
    assert [w][1..] == [];
  }

  lemma ApplyNothing<T>(memory: seq<T>)
    ensures Apply(memory, []) == memory
  {
  }

  lemma {:induction false} ApplyLength<T>(memory: seq<T>, z: seq<Write<T>>)
    ensures |Apply(memory, z)| == |memory|
    decreases |z|
  {
    if z != [] {
      ApplyLength(Put(memory, z[0]), z[1..]);
    }
  }

  lemma {:induction false} ExtractMembers<T>(z: seq<Write<T>>, own: set<nat>)
    ensures forall k :: 0 <= k < |z| && k in own ==> z[k] in Extract(z, own)
    decreases |z|
  {
    if z != [] {
      ExtractMembers(z[..|z| - 1], own);
    }
  }

  lemma {:induction false} ExtractNothing<T>(z: seq<Write<T>>, own: set<nat>)
    requires forall k :: 0 <= k < |z| ==> k !in own
    ensures Extract(z, own) == []
    decreases |z|
  {
    if z != [] {
      ExtractNothing(z[..|z| - 1], own);
    }
  }

  /** What a set of tasks leaves on a stretch that the others do not write to does not depend on the others. */
  lemma {:induction false} OthersDoNotMatter<T>(memory: seq<T>, z: seq<Write<T>>, own: set<nat>, i: nat, at: int, n: nat)
    requires i <= |z| && forall k :: k in own ==> i <= k
    requires forall k :: i <= k < |z| && k !in own ==> !(at <= z[k].pos < at + n)
    ensures |Apply(memory, z)| == |Apply(Apply(memory, z[..i]), Extract(z, own))| == |memory|
    ensures forall j :: at <= j < at + n && 0 <= j < |memory| ==>
                          Apply(memory, z)[j] == Apply(Apply(memory, z[..i]), Extract(z, own))[j]
    decreases |z|
  {
    hide Apply;
    ApplyLength(memory, z);
    ApplyLength(memory, z[..i]);
    ApplyLength(Apply(memory, z[..i]), Extract(z, own));
    if i == |z| {
      assert z[..i] == z;
      ExtractNothing(z, own);
      ApplyNothing(Apply(memory, z));
    } else {
      var m := |z| - 1;
      assert z == z[..m] + [z[m]] && z[..m][..i] == z[..i];
      OthersDoNotMatter(memory, z[..m], own, i, at, n);
      ApplyLast(memory, z[..m], z[m]);
      ApplyLast(Apply(memory, z[..i]), Extract(z[..m], own), z[m]);
    }
  }

  /** What lies on a stretch that the others do not write to is what the tasks alone would leave there. */
  lemma HoldsAmongOthers<T>(memory: seq<T>, z: seq<Write<T>>, own: set<nat>, i: nat, at: int, xs: seq<T>)
    requires i <= |z| && forall k :: k in own ==> i <= k
    requires forall k :: i <= k < |z| && k !in own ==> !(at <= z[k].pos < at + |xs|)
    requires Holds(Apply(Apply(memory, z[..i]), Extract(z, own)), at, xs)
    ensures Holds(Apply(memory, z), at, xs)
  {
    hide Apply, Extract;
    OthersDoNotMatter(memory, z, own, i, at, |xs|);
    var a, b := Apply(memory, z), Apply(Apply(memory, z[..i]), Extract(z, own));
    assert a[at..at + |xs|] == b[at..at + |xs|];
  }

  /** A stretch that nobody writes to from write i on stays as it is. */
  lemma HoldsUntouched<T>(memory: seq<T>, z: seq<Write<T>>, i: nat, at: int, xs: seq<T>)
    requires i <= |z| && Holds(Apply(memory, z[..i]), at, xs)
    requires forall k :: i <= k < |z| ==> !(at <= z[k].pos < at + |xs|)
    ensures Holds(Apply(memory, z), at, xs)
  {
    hide Holds;
    ExtractNothing(z, {});
    HoldsAmongOthers(memory, z, {}, i, at, xs);
  }

  lemma {:induction false} ExtractPrefix<T>(z: seq<Write<T>>, own: set<nat>, i: nat)
    requires i <= |z| && forall k :: k in own ==> k < i
    ensures Extract(z, own) == Extract(z[..i], own)
    decreases |z|
  {
    if i < |z| {
      var m := |z| - 1;
      assert z[..m][..i] == z[..i];
      ExtractPrefix(z[..m], own, i);
    } else {
      assert z[..i] == z;
    }
  }

  /** Earlier writes come first. */
  lemma {:induction false} ExtractConcat<T>(z: seq<Write<T>>, a: set<nat>, b: set<nat>)
    requires forall j, k :: j in a && k in b ==> j < k
    ensures Extract(z, a + b) == Extract(z, a) + Extract(z, b)
    decreases |z|
  {
    if z != [] {
      var m := |z| - 1;
      ExtractConcat(z[..m], a, b);
      if m in a {
        forall k | 0 <= k < |z|
          ensures k !in b
        {
        }
        ExtractNothing(z, b);
        ExtractNothing(z[..m], b);
      }
    }
  }

  lemma {:induction false} InterleavedAppend<T>(l: seq<T>, r: seq<T>, z: seq<T>, x: T)
    requires Interleaved(l, r, z)
    ensures Interleaved(l + [x], r, z + [x]) && Interleaved(l, r + [x], z + [x])
    decreases |z|
  {
    var z' := z + [x];
    if z == [] {
      assert z'[1..] == [] && (l + [x])[1..] == [] && (r + [x])[1..] == [];
    } else {
      assert z'[1..] == z[1..] + [x];
      if l != [] && l[0] == z[0] && Interleaved(l[1..], r, z[1..]) {
        InterleavedAppend(l[1..], r, z[1..], x);
        assert (l + [x])[1..] == l[1..] + [x];
      } else {
        InterleavedAppend(l, r[1..], z[1..], x);
        assert (r + [x])[1..] == r[1..] + [x];
      }
    }
  }

  /** Two groups of tasks interleave. */
  lemma {:induction false} ExtractInterleaves<T>(z: seq<Write<T>>, l: set<nat>, r: set<nat>)
    requires l !! r
    ensures Interleaved(Extract(z, l), Extract(z, r), Extract(z, l + r))
    decreases |z|
  {
    if z == [] {
      var none: seq<Write<T>> := [];
      assert Interleaved(none, none, none);
    } else {
      var m := |z| - 1;
      ExtractInterleaves(z[..m], l, r);
      InterleavedAppend(Extract(z[..m], l), Extract(z[..m], r), Extract(z[..m], l + r), z[m]);
    }
  }

  function Before(own: set<nat>, i: nat): set<nat> {
    set k | k in own && k < i
  }

  lemma {:induction false} ExtractSame<T>(z: seq<Write<T>>, a: set<nat>, b: set<nat>)
    requires forall k :: 0 <= k < |z| ==> (k in a <==> k in b)
    ensures Extract(z, a) == Extract(z, b)
    decreases |z|
  {
    if z != [] {
      ExtractSame(z[..|z| - 1], a, b);
    }
  }

  /** When the extract is two sequences one after the other, some index separates them. */
  lemma {:induction false} CutExtract<T>(z: seq<Write<T>>, own: set<nat>, a: seq<Write<T>>, b: seq<Write<T>>) returns (i: nat)
    requires Extract(z, own) == a + b
    ensures i <= |z| && Extract(z, Before(own, i)) == a && Extract(z, own - Before(own, i)) == b
    decreases |z|
  {
    if b == [] {
      i := |z|;
      ExtractSame(z, own, Before(own, i));
      ExtractNothing(z, own - Before(own, i));
    } else {
      var m := |z| - 1;
      if m in own {
        var b' := b[..|b| - 1];
        assert a + b == (a + b') + [b[|b| - 1]] && b == b' + [b[|b| - 1]];
        assert Extract(z[..m], own) == Extract(z, own)[..|a + b'|] == a + b';
        i := CutExtract(z[..m], own, a, b');
      } else {
        i := CutExtract(z[..m], own, a, b);
      }
    }
  }

  /** The last element of an interleaving is the last one of either part. */
  lemma {:induction false} InterleavedLast<T>(l: seq<T>, r: seq<T>, z: seq<T>, x: T)
    requires Interleaved(l, r, z + [x])
    ensures || (l != [] && l[|l| - 1] == x && Interleaved(l[..|l| - 1], r, z))
            || (r != [] && r[|r| - 1] == x && Interleaved(l, r[..|r| - 1], z))
    decreases |z|
  {
    var z' := z + [x];
    if z == [] {
      assert z'[1..] == [];
    } else {
      assert z'[1..] == z[1..] + [x];
      if l != [] && l[0] == z[0] && Interleaved(l[1..], r, z'[1..]) {
        InterleavedLast(l[1..], r, z[1..], x);
        if |l| > 1 { assert l[..|l| - 1][1..] == l[1..][..|l| - 2]; }
      } else {
        InterleavedLast(l, r[1..], z[1..], x);
        if |r| > 1 { assert r[..|r| - 1][1..] == r[1..][..|r| - 2]; }
      }
    }
  }

  /** When the extract is an interleaving, each write belongs to one of the two. */
  lemma {:induction false} DivideExtract<T>(z: seq<Write<T>>, own: set<nat>, a: seq<Write<T>>, b: seq<Write<T>>)
      returns (l: set<nat>, r: set<nat>)
    requires Interleaved(a, b, Extract(z, own))
    ensures l !! r && l + r == own && Extract(z, l) == a && Extract(z, r) == b
    decreases |z|
  {
    if z == [] {
      l, r := own, {};
    } else {
      var m := |z| - 1;
      if m in own {
        var rest := own - {m};
        ExtractSame(z[..m], own, rest);
        InterleavedLast(a, b, Extract(z[..m], rest), z[m]);
        if a != [] && a[|a| - 1] == z[m] && Interleaved(a[..|a| - 1], b, Extract(z[..m], rest)) {
          l, r := DivideExtract(z[..m], rest, a[..|a| - 1], b);
          ExtractSame(z[..m], l, l + {m});
          l := l + {m};
        } else {
          l, r := DivideExtract(z[..m], rest, a, b[..|b| - 1]);
          ExtractSame(z[..m], r, r + {m});
          r := r + {m};
        }
      } else {
        l, r := DivideExtract(z[..m], own, a, b);
      }
    }
  }

  // ----- Every level writes to its own two parts only, whatever it reads -----

  ghost predicate OwnInside<T>(z: seq<Write<T>>, own: set<nat>, lo: int, bu: int, n: nat) {
    forall k :: 0 <= k < |z| && k in own ==> !Elsewhere(z[k].pos, lo, bu, n)
  }

  lemma RunInside<T(!new)>(job: Job<T>, trace: seq<Write<T>>, lo: int, bu: int, n: nat)
    requires IsRun(job, trace) && InParts(Content(InOrder(job)), lo, bu, n)
    ensures forall w :: w in trace ==> !Elsewhere(w.pos, lo, bu, n)
  {
    RunMembers(job, trace);
    ContentKeys(InOrder(job));
  }

  lemma PlanInside<T(!new)>(less: (T, T) -> bool, x: seq<T>, y: seq<T>, at: int, cutoff: int, trace: seq<Write<T>>)
    requires IsRun(Plan(less, x, y, at, cutoff), trace)
    ensures forall w :: w in trace ==> at <= w.pos < at + |x| + |y|
  {
    PlanContent(less, x, y, at, cutoff);
    MergedPermutes(less, x, y, cutoff);
    RunInside(Plan(less, x, y, at, cutoff), trace, at, at, |x| + |y|);
  }

  lemma LeafInside<T(!new)>(less: (T, T) -> bool, s: seq<T>, lo: int)
    requires StrictWeakOrder(less)
    ensures forall w :: w in LeafWrites(less, s, lo) ==> lo <= w.pos < lo + |s|
  {
    hide StrictWeakOrder, Sorted, NeighboursSorted, StdSort, Content, WritesAt;
    LevelValueSorts(less, s, 0, |s| + 1);
    assert LeafValue(less, s) == LevelValue(less, s, 0, |s| + 1);
    ContentWritesAt(lo, LeafValue(less, s));
    ContentKeys(WritesAt(lo, LeafValue(less, s)));
  }

  lemma LeafTaskInside<T(!new)>(less: (T, T) -> bool, memory: seq<T>, z: seq<Write<T>>, own: set<nat>, lo: int, bu: int, n: nat, h: History<T>)
    requires StrictWeakOrder(less) && SortsLeaf(less, memory, z, own, lo, n, h)
    ensures OwnInside(z, own, lo, bu, n)
  {
    hide StrictWeakOrder, Extract, LeafWrites, Apply, Holds;
    LeafInside(less, h.found, lo);
    ExtractMembers(z, own);
  }

  /** The writes of the merge go to the side that it does not read. */
  lemma MergeWritesInside<T(!new)>(less: (T, T) -> bool, memory: seq<T>, z: seq<Write<T>>, own: set<nat>, lo: int, bu: int, n: nat,
                                   depth: nat, cutoff: int, h: History<T>)
    requires MergesFound(less, memory, z, own, lo, bu, n, depth, cutoff, h)
    ensures var at := Side(depth, lo, bu);
            forall k :: 0 <= k < |z| && k in own && k !in h.l + h.r ==> h.at <= k && at <= z[k].pos < at + n
  {
    hide Extract, Plan, IsRun, Apply, Holds;
    PlanInside(less, h.x, h.y, Side(depth, lo, bu), cutoff, Extract(z, own - (h.l + h.r)));
    ExtractMembers(z, own - (h.l + h.r));
    forall k | 0 <= k < |z| && k in own && k !in h.l + h.r
      ensures k in own - (h.l + h.r)
    {
    }
  }

  /** What is known of both halves of a level. */
  lemma HalvesOf<T(!new)>(less: (T, T) -> bool, memory: seq<T>, z: seq<Write<T>>, own: set<nat>, lo: int, bu: int, n: nat,
                          depth: nat, cutoff: int, h: History<T>)
    requires Sorts(less, memory, z, own, lo, bu, n, depth, cutoff, h)
    ensures h.MergeTask? ==>
              && !(FindCutoff(RandomAccess, 0, cutoff, n) == n && Even(depth))
              && MergesFound(less, memory, z, own, lo, bu, n, depth, cutoff, h)
              && h.at <= |z| && |h.x| == FindCutoff(RandomAccess, 0, cutoff, n) && |h.x| + |h.y| == n
              && Sorts(less, memory, z[..h.at], h.l, lo, bu, |h.x|, depth + 1, cutoff, h.left)
              && Sorts(less, memory, z[..h.at], h.r, lo + |h.x|, bu + |h.x|, |h.y|, depth + 1, cutoff, h.right)
  {
    hide Holds, Apply, IsRun, Plan, Extract;
  }

  lemma LeafOf<T(!new)>(less: (T, T) -> bool, memory: seq<T>, z: seq<Write<T>>, own: set<nat>, lo: int, bu: int, n: nat,
                        depth: nat, cutoff: int, h: History<T>)
    requires Sorts(less, memory, z, own, lo, bu, n, depth, cutoff, h)
    ensures h.LeafTask? ==> FindCutoff(RandomAccess, 0, cutoff, n) == n && Even(depth) && SortsLeaf(less, memory, z, own, lo, n, h)
  {
    hide Holds, Apply, IsRun, Plan, Extract;
  }

  lemma AllInside<T(!new)>(less: (T, T) -> bool, memory: seq<T>, z: seq<Write<T>>, own: set<nat>, lo: int, bu: int, n: nat,
                           depth: nat, cutoff: int, h: History<T>)
    requires MergesFound(less, memory, z, own, lo, bu, n, depth, cutoff, h)
    requires OwnInside(z[..h.at], h.l, lo, bu, |h.x|) && OwnInside(z[..h.at], h.r, lo + |h.x|, bu + |h.x|, |h.y|)
    ensures OwnInside(z, own, lo, bu, n)
  {
    hide Holds, Apply, IsRun, Plan, Extract;
    MergeWritesInside(less, memory, z, own, lo, bu, n, depth, cutoff, h);
    var l, r, at := h.l, h.r, h.at;
    forall k | 0 <= k < |z| && k in own
      ensures !Elsewhere(z[k].pos, lo, bu, n)
    {
      if k in l + r { assert z[..at][k] == z[k]; }
    }
  }

  lemma {:induction false} SortsInside<T(!new)>(less: (T, T) -> bool, memory: seq<T>, z: seq<Write<T>>, own: set<nat>,
                                                lo: int, bu: int, n: nat, depth: nat, cutoff: int, h: History<T>)
    requires StrictWeakOrder(less) && Sorts(less, memory, z, own, lo, bu, n, depth, cutoff, h)
    ensures OwnInside(z, own, lo, bu, n)
    decreases h
  {
    hide StrictWeakOrder, Sorts, SortsLeaf, MergesFound, OwnInside;
    if h.LeafTask? {
      LeafOf(less, memory, z, own, lo, bu, n, depth, cutoff, h);
      LeafTaskInside(less, memory, z, own, lo, bu, n, h);
    } else {
      HalvesOf(less, memory, z, own, lo, bu, n, depth, cutoff, h);
      SortsInside(less, memory, z[..h.at], h.l, lo, bu, |h.x|, depth + 1, cutoff, h.left);
      SortsInside(less, memory, z[..h.at], h.r, lo + |h.x|, bu + |h.x|, |h.y|, depth + 1, cutoff, h.right);
      AllInside(less, memory, z, own, lo, bu, n, depth, cutoff, h);
    }
  }

  // ----- A level among other writers -----

  lemma LaidHalves<T>(memory: seq<T>, s: seq<T>, lo: int, bu: int, it: int)
    requires Laid(memory, s, lo, bu) && 0 <= it <= |s|
    ensures Laid(memory, s[..it], lo, bu) && Laid(memory, s[it..], lo + it, bu + it)
  {
    HoldsSplit(memory, lo, s, it);
  }

  /** What a level that makes the planned writes leaves on its side, whatever others do elsewhere. */
  lemma PlannedAmongOthers<T(!new)>(less: (T, T) -> bool, memory: seq<T>, z: seq<Write<T>>, own: set<nat>,
                                    s: seq<T>, lo: int, bu: int, depth: nat, cutoff: int)
    requires StrictWeakOrder(less) && cutoff >= 1 && Laid(memory, s, lo, bu) && OthersElsewhere(z, own, lo, bu, |s|)
    requires IsRun(SortPlan(less, s, lo, bu, depth, cutoff), Extract(z, own))
    ensures Holds(Apply(memory, z), Side(depth, lo, bu), LevelValue(less, s, depth, cutoff))
    ensures forall w :: w in Extract(z, own) ==> !Elsewhere(w.pos, lo, bu, |s|)
  {
    hide StrictWeakOrder, Extract, LevelValue, SortPlan, Holds, IsRun, Content, InOrder, InParts, RaceFree;
    var job := SortPlan(less, s, lo, bu, depth, cutoff);
    SortPlanWorks(less, memory, s, lo, bu, depth, cutoff);
    EveryRunPatches(memory, job, Extract(z, own));
    RunInside(job, Extract(z, own), lo, bu, |s|);
    LevelValueSorts(less, s, depth, cutoff);
    assert z[..0] == [];
    HoldsAmongOthers(memory, z, own, 0, Side(depth, lo, bu), LevelValue(less, s, depth, cutoff));
  }

  /** Each half is elsewhere for the other one. */
  lemma SiblingsElsewhere<T>(z: seq<Write<T>>, own: set<nat>, i: nat, l: set<nat>, r: set<nat>, lo: int, bu: int, n: nat, it: nat)
    requires i <= |z| && it <= n && PartsApart(lo, bu, n) && OthersElsewhere(z, own, lo, bu, n)
    requires forall k :: k in own && k < i ==> k in l + r
    requires OwnInside(z[..i], l, lo, bu, it) && OwnInside(z[..i], r, lo + it, bu + it, n - it)
    ensures OthersElsewhere(z[..i], l, lo, bu, it) && OthersElsewhere(z[..i], r, lo + it, bu + it, n - it)
  {
    forall k | 0 <= k < i
      ensures k !in l ==> Elsewhere(z[k].pos, lo, bu, it)
      ensures k !in r ==> Elsewhere(z[k].pos, lo + it, bu + it, n - it)
    {
      assert z[..i][k] == z[k];
      if k !in own { assert Elsewhere(z[k].pos, lo, bu, n); }
    }
  }

  lemma SameHeld<T>(memory: seq<T>, at: int, x: seq<T>, y: seq<T>)
    requires Holds(memory, at, x) && Holds(memory, at, y) && |x| == |y|
    ensures x == y
  {
  }

  /** The range is as it was until the level itself writes. */
  lemma LaidUntilOwn<T>(memory: seq<T>, z: seq<Write<T>>, own: set<nat>, s: seq<T>, lo: int, bu: int, i: nat)
    requires Laid(memory, s, lo, bu) && OthersElsewhere(z, own, lo, bu, |s|) && i <= |z| && forall k :: k in own ==> i <= k
    ensures Laid(Apply(memory, z[..i]), s, lo, bu)
  {
    hide Apply, Holds;
    assert z[..i][..0] == [];
    ApplyNothing(memory);
    ApplyLength(memory, z[..i]);
    forall k | 0 <= k < i
      ensures !(lo <= z[..i][k].pos < lo + |s|)
    {
      assert z[..i][k] == z[k] && k !in own;
    }
    HoldsUntouched(memory, z[..i], 0, lo, s);
  }

  /** The halves interleave, and the merge comes after both. */
  lemma HalvesThenMerge<T(!new)>(left: Job<T>, right: Job<T>, next: Job<T>, z: seq<Write<T>>, own: set<nat>, i: nat, l: set<nat>, r: set<nat>)
    requires i <= |z| && l !! r && l + r <= own && (forall k :: k in l + r ==> k < i) && (forall k :: k in own - (l + r) ==> i <= k)
    requires IsRun(left, Extract(z[..i], l)) && IsRun(right, Extract(z[..i], r)) && IsRun(next, Extract(z, own - (l + r)))
    ensures IsRun(Then(Fork([], left, right), next), Extract(z, own))
  {
    hide Extract, Interleaved;
    ExtractInterleaves(z[..i], l, r);
    var both := Extract(z[..i], l + r);
    assert both == [] + both;
    assert IsRun(Fork([], left, right), both);
    ExtractPrefix(z, l + r, i);
    ExtractConcat(z, l + r, own - (l + r));
    assert own == (l + r) + (own - (l + r));
  }

  /** The tasks of the two halves do their work before the merge, in their own parts. */
  lemma HalvesApart<T(!new)>(less: (T, T) -> bool, memory: seq<T>, z: seq<Write<T>>, own: set<nat>, lo: int, bu: int, n: nat,
                             depth: nat, cutoff: int, h: History<T>)
    requires StrictWeakOrder(less) && PartsApart(lo, bu, n) && OthersElsewhere(z, own, lo, bu, n)
    requires Sorts(less, memory, z, own, lo, bu, n, depth, cutoff, h)
    ensures h.MergeTask? ==>
              h.at <= |z| && OthersElsewhere(z[..h.at], h.l, lo, bu, |h.x|) && OthersElsewhere(z[..h.at], h.r, lo + |h.x|, bu + |h.x|, |h.y|)
  {
    hide StrictWeakOrder, Sorts, Extract, Plan, Holds, IsRun, Apply;
    HalvesOf(less, memory, z, own, lo, bu, n, depth, cutoff, h);
    if h.LeafTask? { return; }
    SortsInside(less, memory, z[..h.at], h.l, lo, bu, |h.x|, depth + 1, cutoff, h.left);
    SortsInside(less, memory, z[..h.at], h.r, lo + |h.x|, bu + |h.x|, |h.y|, depth + 1, cutoff, h.right);
    var both := h.l + h.r;
    forall k | k in own && k < h.at
      ensures k in both
    {
      assert k in both || k in own - both;
    }
    SiblingsElsewhere(z, own, h.at, h.l, h.r, lo, bu, n, |h.x|);
  }

  /** At every level, whatever the tasks of both halves and all others do, the merge finds the two sorted halves. */
  lemma {:induction false} MergeFindsHalves<T(!new)>(less: (T, T) -> bool, memory: seq<T>, z: seq<Write<T>>, own: set<nat>,
                                                     s: seq<T>, lo: int, bu: int, depth: nat, cutoff: int, h: History<T>)
    requires StrictWeakOrder(less) && cutoff >= 1 && Laid(memory, s, lo, bu) && OthersElsewhere(z, own, lo, bu, |s|)
    requires Sorts(less, memory, z, own, lo, bu, |s|, depth, cutoff, h)
    ensures h.MergeTask? ==>
              var it := |h.x|;
              && it <= |s| && h.at <= |z|
              && IsRun(SortPlan(less, s[..it], lo, bu, depth + 1, cutoff), Extract(z[..h.at], h.l))
              && IsRun(SortPlan(less, s[it..], lo + it, bu + it, depth + 1, cutoff), Extract(z[..h.at], h.r))
              && h.x == LevelValue(less, s[..it], depth + 1, cutoff) && h.y == LevelValue(less, s[it..], depth + 1, cutoff)
    decreases h, 0
  {
    hide StrictWeakOrder, Sorts, Extract, LevelValue, SortPlan, Plan, Holds, IsRun, Apply, OthersElsewhere;
    if h.LeafTask? { return; }
    HalvesOf(less, memory, z, own, lo, bu, |s|, depth, cutoff, h);
    var it := |h.x|;
    HalvesApart(less, memory, z, own, lo, bu, |s|, depth, cutoff, h);
    LaidHalves(memory, s, lo, bu, it);
    ReadingIsPlanned(less, memory, z[..h.at], h.l, s[..it], lo, bu, depth + 1, cutoff, h.left);
    ReadingIsPlanned(less, memory, z[..h.at], h.r, s[it..], lo + it, bu + it, depth + 1, cutoff, h.right);
    PlannedAmongOthers(less, memory, z[..h.at], h.l, s[..it], lo, bu, depth + 1, cutoff);
    PlannedAmongOthers(less, memory, z[..h.at], h.r, s[it..], lo + it, bu + it, depth + 1, cutoff);
    LevelValueSorts(less, s[..it], depth + 1, cutoff);
    LevelValueSorts(less, s[it..], depth + 1, cutoff);
    SameHeld(Apply(memory, z[..h.at]), Side(depth + 1, lo, bu), h.x, LevelValue(less, s[..it], depth + 1, cutoff));
    SameHeld(Apply(memory, z[..h.at]), Side(depth + 1, lo, bu) + it, h.y, LevelValue(less, s[it..], depth + 1, cutoff));
  }

  lemma PlanOfLeaf<T(!new)>(less: (T, T) -> bool, s: seq<T>, lo: int, bu: int, depth: nat, cutoff: int, trace: seq<Write<T>>)
    requires cutoff >= 1 && FindCutoff(RandomAccess, 0, cutoff, |s|) == |s| && Even(depth)
    ensures IsRun(SortPlan(less, s, lo, bu, depth, cutoff), trace) <==> trace == LeafWrites(less, s, lo)
  {
  }

  lemma PlanOfHalves<T>(less: (T, T) -> bool, s: seq<T>, lo: int, bu: int, depth: nat, cutoff: int)
    requires cutoff >= 1 && !(FindCutoff(RandomAccess, 0, cutoff, |s|) == |s| && Even(depth))
    ensures var it := FindCutoff(RandomAccess, 0, cutoff, |s|);
            SortPlan(less, s, lo, bu, depth, cutoff)
            == Then(Fork([], SortPlan(less, s[..it], lo, bu, depth + 1, cutoff), SortPlan(less, s[it..], lo + it, bu + it, depth + 1, cutoff)),
                    Plan(less, LevelValue(less, s[..it], depth + 1, cutoff), LevelValue(less, s[it..], depth + 1, cutoff),
                         Side(depth, lo, bu), cutoff))
  {
    hide LevelValue, Plan;
  }

  /** A leaf finds its range as it was at the start. */
  lemma LeafFindsRange<T(!new)>(less: (T, T) -> bool, memory: seq<T>, z: seq<Write<T>>, own: set<nat>, s: seq<T>, lo: int, bu: int, h: History<T>)
    requires Laid(memory, s, lo, bu) && OthersElsewhere(z, own, lo, bu, |s|) && SortsLeaf(less, memory, z, own, lo, |s|, h)
    ensures h.found == s
  {
    hide Extract, LeafWrites, Holds, Apply, OthersElsewhere;
    LaidUntilOwn(memory, z, own, s, lo, bu, h.at);
    SameHeld(Apply(memory, z[..h.at]), lo, s, h.found);
  }

  /** Tasks that read the memory as they find it make planned writes. */
  lemma {:induction false} ReadingIsPlanned<T(!new)>(less: (T, T) -> bool, memory: seq<T>, z: seq<Write<T>>, own: set<nat>,
                                                     s: seq<T>, lo: int, bu: int, depth: nat, cutoff: int, h: History<T>)
    requires StrictWeakOrder(less) && cutoff >= 1 && Laid(memory, s, lo, bu) && OthersElsewhere(z, own, lo, bu, |s|)
    requires Sorts(less, memory, z, own, lo, bu, |s|, depth, cutoff, h)
    ensures IsRun(SortPlan(less, s, lo, bu, depth, cutoff), Extract(z, own))
    decreases h, 1
  {
    hide StrictWeakOrder, Sorts, SortPlan, IsRun, Extract, LevelValue, LeafWrites, Plan, Holds, Apply, OthersElsewhere;
    if h.LeafTask? {
      LeafOf(less, memory, z, own, lo, bu, |s|, depth, cutoff, h);
      PlanOfLeaf(less, s, lo, bu, depth, cutoff, Extract(z, own));
      LeafFindsRange(less, memory, z, own, s, lo, bu, h);
    } else {
      HalvesOf(less, memory, z, own, lo, bu, |s|, depth, cutoff, h);
      var it := |h.x|;
      MergeFindsHalves(less, memory, z, own, s, lo, bu, depth, cutoff, h);
      PlanOfHalves(less, s, lo, bu, depth, cutoff);
      HalvesThenMerge(SortPlan(less, s[..it], lo, bu, depth + 1, cutoff), SortPlan(less, s[it..], lo + it, bu + it, depth + 1, cutoff),
                      Plan(less, h.x, h.y, Side(depth, lo, bu), cutoff), z, own, h.at, h.l, h.r);
    }
  }

  /** The parts of a run of a level that is not a leaf. */
  lemma RunParts<T(!new)>(left: Job<T>, right: Job<T>, next: Job<T>, trace: seq<Write<T>>)
      returns (tl: seq<Write<T>>, tr: seq<Write<T>>, a: seq<Write<T>>, b: seq<Write<T>>)
    requires IsRun(Then(Fork([], left, right), next), trace)
    ensures IsRun(left, tl) && IsRun(right, tr) && Interleaved(tl, tr, a) && IsRun(next, b) && trace == a + b
  {
    var x, y :| IsRun(Fork([], left, right), x) && IsRun(next, y) && trace == x + y;
    var l, r, z :| IsRun(left, l) && IsRun(right, r) && Interleaved(l, r, z) && x == [] + z;
    assert [] + z == z;
    tl, tr, a, b := l, r, x, y;
  }

  lemma PlannedInside<T(!new)>(less: (T, T) -> bool, memory: seq<T>, z: seq<Write<T>>, own: set<nat>,
                               s: seq<T>, lo: int, bu: int, depth: nat, cutoff: int)
    requires StrictWeakOrder(less) && cutoff >= 1 && Laid(memory, s, lo, bu)
    requires IsRun(SortPlan(less, s, lo, bu, depth, cutoff), Extract(z, own))
    ensures OwnInside(z, own, lo, bu, |s|)
  {
    hide StrictWeakOrder, Extract, SortPlan, IsRun, InOrder, Content, InParts, RaceFree, Laid, Elsewhere;
    SortPlanWorks(less, memory, s, lo, bu, depth, cutoff);
    RunInside(SortPlan(less, s, lo, bu, depth, cutoff), Extract(z, own), lo, bu, |s|);
    ExtractMembers(z, own);
  }

  lemma LeafReads<T(!new)>(less: (T, T) -> bool, memory: seq<T>, z: seq<Write<T>>, own: set<nat>, s: seq<T>, lo: int, bu: int,
                           depth: nat, cutoff: int)
    requires FindCutoff(RandomAccess, 0, cutoff, |s|) == |s| && Even(depth)
    requires Holds(memory, lo, s) && Extract(z, own) == LeafWrites(less, s, lo)
    ensures Sorts(less, memory, z, own, lo, bu, |s|, depth, cutoff, LeafTask(0, s))
  {
    hide Extract, LeafWrites, Holds, Apply;
    assert z[..0] == [];
    ApplyNothing(memory);
  }

  lemma HalvesRead<T(!new)>(less: (T, T) -> bool, memory: seq<T>, z: seq<Write<T>>, own: set<nat>, lo: int, bu: int, n: nat,
                            depth: nat, cutoff: int, h: History<T>)
    requires !(FindCutoff(RandomAccess, 0, cutoff, n) == n && Even(depth))
    requires h.MergeTask? && h.at <= |z| && h.l !! h.r && h.l + h.r == Before(own, h.at)
    requires |h.x| == FindCutoff(RandomAccess, 0, cutoff, n) && |h.x| + |h.y| == n
    requires Sorts(less, memory, z[..h.at], h.l, lo, bu, |h.x|, depth + 1, cutoff, h.left)
    requires Sorts(less, memory, z[..h.at], h.r, lo + |h.x|, bu + |h.x|, |h.y|, depth + 1, cutoff, h.right)
    requires Holds(Apply(memory, z[..h.at]), Side(depth + 1, lo, bu), h.x)
    requires Holds(Apply(memory, z[..h.at]), Side(depth + 1, lo, bu) + |h.x|, h.y)
    requires IsRun(Plan(less, h.x, h.y, Side(depth, lo, bu), cutoff), Extract(z, own - Before(own, h.at)))
    ensures Sorts(less, memory, z, own, lo, bu, n, depth, cutoff, h)
  {
    hide Holds, Apply, IsRun, Plan, Extract, SortsLeaf;
  }

  /** Conversely, every planned run is made by tasks that read the memory. */
  lemma {:induction false} PlannedIsReading<T(!new)>(less: (T, T) -> bool, memory: seq<T>, z: seq<Write<T>>, own: set<nat>,
                                                     s: seq<T>, lo: int, bu: int, depth: nat, cutoff: int) returns (h: History<T>)
    requires StrictWeakOrder(less) && cutoff >= 1 && Laid(memory, s, lo, bu) && OthersElsewhere(z, own, lo, bu, |s|)
    requires IsRun(SortPlan(less, s, lo, bu, depth, cutoff), Extract(z, own))
    ensures Sorts(less, memory, z, own, lo, bu, |s|, depth, cutoff, h)
    decreases |s|, depth % 2
  {
    hide StrictWeakOrder, Sorts, SortsLeaf, SortPlan, IsRun, Extract, LevelValue, LeafWrites, Plan, Holds, Apply;
    hide OthersElsewhere, OwnInside, Interleaved;
    var it := FindCutoff(RandomAccess, 0, cutoff, |s|);
    if it == |s| && Even(depth) {
      PlanOfLeaf(less, s, lo, bu, depth, cutoff, Extract(z, own));
      LeafReads(less, memory, z, own, s, lo, bu, depth, cutoff);
      h := LeafTask(0, s);
    } else {
      var left, right := SortPlan(less, s[..it], lo, bu, depth + 1, cutoff), SortPlan(less, s[it..], lo + it, bu + it, depth + 1, cutoff);
      var x, y := LevelValue(less, s[..it], depth + 1, cutoff), LevelValue(less, s[it..], depth + 1, cutoff);
      PlanOfHalves(less, s, lo, bu, depth, cutoff);
      var tl, tr, a, b := RunParts(left, right, Plan(less, x, y, Side(depth, lo, bu), cutoff), Extract(z, own));
      var i := CutExtract(z, own, a, b);
      ExtractPrefix(z, Before(own, i), i);
      var l, r := DivideExtract(z[..i], Before(own, i), tl, tr);
      LaidHalves(memory, s, lo, bu, it);
      PlannedInside(less, memory, z[..i], l, s[..it], lo, bu, depth + 1, cutoff);
      PlannedInside(less, memory, z[..i], r, s[it..], lo + it, bu + it, depth + 1, cutoff);
      SiblingsElsewhere(z, own, i, l, r, lo, bu, |s|, it);
      var leftHistory := PlannedIsReading(less, memory, z[..i], l, s[..it], lo, bu, depth + 1, cutoff);
      var rightHistory := PlannedIsReading(less, memory, z[..i], r, s[it..], lo + it, bu + it, depth + 1, cutoff);
      PlannedAmongOthers(less, memory, z[..i], l, s[..it], lo, bu, depth + 1, cutoff);
      PlannedAmongOthers(less, memory, z[..i], r, s[it..], lo + it, bu + it, depth + 1, cutoff);
      LevelValueSorts(less, s[..it], depth + 1, cutoff);
      LevelValueSorts(less, s[it..], depth + 1, cutoff);
      h := MergeTask(i, l, r, x, y, leftHistory, rightHistory);
      HalvesRead(less, memory, z, own, lo, bu, |s|, depth, cutoff, h);
    }
  }

  /** Main result: the runs of tasks that read the memory as they find it are exactly the planned ones. */
  lemma ReadsAsPlanned<T(!new)>(less: (T, T) -> bool, memory: seq<T>, z: seq<Write<T>>, own: set<nat>,
                                s: seq<T>, lo: int, bu: int, depth: nat, cutoff: int)
    requires StrictWeakOrder(less) && cutoff >= 1 && Laid(memory, s, lo, bu) && OthersElsewhere(z, own, lo, bu, |s|)
    ensures (exists h :: Sorts(less, memory, z, own, lo, bu, |s|, depth, cutoff, h))
            <==> IsRun(SortPlan(less, s, lo, bu, depth, cutoff), Extract(z, own))
  {
    hide StrictWeakOrder, Sorts, SortPlan, IsRun, Extract, Laid, OthersElsewhere;
    if h :| Sorts(less, memory, z, own, lo, bu, |s|, depth, cutoff, h) {
      ReadingIsPlanned(less, memory, z, own, s, lo, bu, depth, cutoff, h);
    }
    if IsRun(SortPlan(less, s, lo, bu, depth, cutoff), Extract(z, own)) {
      var h := PlannedIsReading(less, memory, z, own, s, lo, bu, depth, cutoff);
    }
  }

  /** So each level leaves the sorted permutation of its range on its side, whatever other tasks do elsewhere. */
  lemma EveryReadingSortSorts<T(!new)>(less: (T, T) -> bool, memory: seq<T>, z: seq<Write<T>>, own: set<nat>,
                                       s: seq<T>, lo: int, bu: int, depth: nat, cutoff: int, h: History<T>)
    requires StrictWeakOrder(less) && cutoff >= 1 && Laid(memory, s, lo, bu) && OthersElsewhere(z, own, lo, bu, |s|)
    requires Sorts(less, memory, z, own, lo, bu, |s|, depth, cutoff, h)
    ensures var after := Apply(memory, z); var at := Side(depth, lo, bu);
            && 0 <= at && at + |s| <= |after| == |memory|
            && Sorted(less, after[at..at + |s|]) && multiset(after[at..at + |s|]) == multiset(s)
    ensures OwnInside(z, own, lo, bu, |s|)
  {
    hide StrictWeakOrder, Sorts, SortPlan, IsRun, Extract, OthersElsewhere, OwnInside, LevelValue, Sorted, Apply;
    ApplyLength(memory, z);
    SortsInside(less, memory, z, own, lo, bu, |s|, depth, cutoff, h);
    ReadingIsPlanned(less, memory, z, own, s, lo, bu, depth, cutoff, h);
    PlannedAmongOthers(less, memory, z, own, s, lo, bu, depth, cutoff);
    LevelValueSorts(less, s, depth, cutoff);
  }

  /** The halves stay as they are as long as the merge goes on, so it does not matter when it reads an element. */
  lemma SourceStays<T(!new)>(less: (T, T) -> bool, memory: seq<T>, z: seq<Write<T>>, own: set<nat>, lo: int, bu: int, n: nat,
                             depth: nat, cutoff: int, h: History<T>, j: nat)
    requires PartsApart(lo, bu, n) && OthersElsewhere(z, own, lo, bu, n)
    requires MergesFound(less, memory, z, own, lo, bu, n, depth, cutoff, h) && h.at <= j <= |z|
    ensures Holds(Apply(memory, z[..j]), Side(depth + 1, lo, bu), h.x) && Holds(Apply(memory, z[..j]), Side(depth + 1, lo, bu) + |h.x|, h.y)
  {
    hide Plan, Apply, Holds, IsRun, Extract;
    var at := Side(depth + 1, lo, bu);
    MergeWritesInside(less, memory, z, own, lo, bu, n, depth, cutoff, h);
    assert z[..j][..h.at] == z[..h.at];
    forall k | h.at <= k < j
      ensures !(at <= z[..j][k].pos < at + n)
    {
      assert z[..j][k] == z[k];
      if k !in own { assert Elsewhere(z[k].pos, lo, bu, n); }
    }
    HoldsUntouched(memory, z[..j], h.at, at, h.x);
    HoldsUntouched(memory, z[..j], h.at, at + |h.x|, h.y);
  }
}

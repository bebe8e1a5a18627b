/** The merge sort of parallel_sort as a job: all interleavings of the tasks of all levels. */
module SortRuns {
  import opened Cutoff
  import opened Ordering
  import opened ForkJoin
  import opened ParallelMerge
  import opened ParallelSort

  /**
    The tasks that sort s, which lies from lo on, with a buffer from bu on: the halves, and when both are
    done the merge from the side they are on to the other one.
   */
  ghost function SortPlan<T>(less: (T, T) -> bool, s: seq<T>, lo: int, bu: int, depth: nat, cutoff: int): Job<T>
    requires cutoff >= 1
    decreases |s|, depth % 2
  {
    var it := FindCutoff(RandomAccess, 0, cutoff, |s|);
    if it == |s| && Even(depth) then Leaf(LeafWrites(less, s, lo))
    else Then(Halves(less, s, it, lo, bu, depth, cutoff),
              Plan(less, LevelValue(less, s[..it], depth + 1, cutoff), LevelValue(less, s[it..], depth + 1, cutoff),
                   Side(depth, lo, bu), cutoff))
  }

  ghost function Halves<T>(less: (T, T) -> bool, s: seq<T>, it: int, lo: int, bu: int, depth: nat, cutoff: int): Job<T>
    requires cutoff >= 1 && it == FindCutoff(RandomAccess, 0, cutoff, |s|) && !(it == |s| && Even(depth))
    decreases |s|, depth % 2, 0
  {
    Fork([], SortPlan(less, s[..it], lo, bu, depth + 1, cutoff), SortPlan(less, s[it..], lo + it, bu + it, depth + 1, cutoff))
  }

  /** Where a level leaves its result. */
  function Side(depth: nat, lo: int, bu: int): int {
    if Even(depth) then lo else bu
  }

  /** A small range that is sorted already is left alone. */
  function LeafWrites<T>(less: (T, T) -> bool, s: seq<T>, lo: int): seq<Write<T>> {
    if !NeighboursSorted(Flip(less), s) && NeighboursSorted(less, s) then [] else WritesAt(lo, LeafValue(less, s))
  }

  // ----- What the tasks write -----

  /** All written places lie in the part of the range or in the part of the buffer. */
  ghost predicate InParts<T>(m: map<int, T>, lo: int, bu: int, n: int) {
    forall k :: k in m ==> lo <= k < lo + n || bu <= k < bu + n
  }

  ghost predicate PartsApart(lo: int, bu: int, n: int) {
    lo + n <= bu || bu + n <= lo
  }

  /** xs lies in memory from a position on. */
  ghost predicate Holds<T>(memory: seq<T>, at: int, xs: seq<T>) {
    0 <= at && at + |xs| <= |memory| && memory[at..at + |xs|] == xs
  }

  lemma HoldsSplit<T>(memory: seq<T>, at: int, xs: seq<T>, it: int)
    requires Holds(memory, at, xs) && 0 <= it <= |xs|
    ensures Holds(memory, at, xs[..it]) && Holds(memory, at + it, xs[it..])
  {
    var s := memory[at..at + |xs|];
    assert memory[at..at + it] == s[..it] && memory[at + it..at + |xs|] == s[it..];
  }

  /** Later writes elsewhere leave what is there. */
  lemma HoldsBeside<T>(memory: seq<T>, m: map<int, T>, other: map<int, T>, at: int, xs: seq<T>)
    requires Holds(Patch(memory, m), at, xs) && forall k :: at <= k < at + |xs| ==> k !in other
    ensures Holds(Patch(memory, m + other), at, xs)
  {
    var a, b := Patch(memory, m), Patch(memory, m + other);
    forall i | at <= i < at + |xs|
      ensures b[i] == a[i]
    {
    }
    assert b[at..at + |xs|] == a[at..at + |xs|];
  }

  lemma HoldsBefore<T>(memory: seq<T>, m: map<int, T>, other: map<int, T>, at: int, xs: seq<T>)
    requires Holds(Patch(memory, other), at, xs) && forall k :: at <= k < at + |xs| ==> k !in m
    ensures Holds(Patch(memory, m + other), at, xs)
  {
    var a, b := Patch(memory, other), Patch(memory, m + other);
    forall i | at <= i < at + |xs|
      ensures b[i] == a[i]
    {
    }
    assert b[at..at + |xs|] == a[at..at + |xs|];
  }

  lemma PlacedHolds<T>(memory: seq<T>, m: map<int, T>, at: int, xs: seq<T>)
    requires 0 <= at && at + |xs| <= |memory|
    ensures Holds(Patch(memory, m + Placed(at, xs)), at, xs)
  {
    var a := Patch(memory, m + Placed(at, xs));
    forall i | 0 <= i < |xs|
      ensures a[at + i] == xs[i]
    {
    }
    assert a[at..at + |xs|] == xs;
  }

  /** What is known of the job of one level. */
  ghost predicate LevelJob<T>(job: Job<T>, memory: seq<T>, lo: int, bu: int, n: int, at: int, value: seq<T>) {
    RaceFree(job) && InParts(Content(InOrder(job)), lo, bu, n) && Holds(Patch(memory, Content(InOrder(job))), at, value)
  }

  /** The memory has room for the range, which holds s, and for the buffer. */
  ghost predicate Laid<T>(memory: seq<T>, s: seq<T>, lo: int, bu: int) {
    Holds(memory, lo, s) && 0 <= bu && bu + |s| <= |memory| && PartsApart(lo, bu, |s|)
  }

  lemma NothingWritten<T>(memory: seq<T>)
    ensures var none: seq<Write<T>> := []; Content(none) == map[] && Patch(memory, Content(none)) == memory
  {
  }

  lemma LeafJob<T(!new)>(less: (T, T) -> bool, memory: seq<T>, s: seq<T>, lo: int, bu: int)
    requires StrictWeakOrder(less) && Laid(memory, s, lo, bu)
    ensures LevelJob(Leaf(LeafWrites(less, s, lo)), memory, lo, bu, |s|, lo, LeafValue(less, s))
  {
    hide StrictWeakOrder, Sorted, NeighboursSorted, Reverse, StdSort, Placed, WritesAt, RaceFree, InOrder, Content;
    var value := LeafValue(less, s);
    LeafIsRaceFree(LeafWrites(less, s, lo));
    LevelValueSorts(less, s, 0, |s| + 1);
    assert value == LevelValue(less, s, 0, |s| + 1);
    NothingWritten(memory);
    if LeafWrites(less, s, lo) != [] || value != s {
      ContentWritesAt(lo, value);
      PlacedHolds(memory, map[], lo, value);
      assert map[] + Placed(lo, value) == Placed(lo, value);
    }
  }

  /** Two halves that keep to their own parts cannot disturb each other. */
  lemma HalvesJob<T>(left: Job<T>, right: Job<T>, memory: seq<T>, lo: int, bu: int, it: int, n: int, at: int, x: seq<T>, y: seq<T>)
    requires 0 <= it <= n && PartsApart(lo, bu, n) && (at == lo || at == bu) && |x| == it && |y| == n - it
    requires LevelJob(left, memory, lo, bu, it, at, x) && LevelJob(right, memory, lo + it, bu + it, n - it, at + it, y)
    ensures var job := Fork([], left, right);
            RaceFree(job) && InParts(Content(InOrder(job)), lo, bu, n)
            && Holds(Patch(memory, Content(InOrder(job))), at, x) && Holds(Patch(memory, Content(InOrder(job))), at + it, y)
  {
    hide RaceFree, Content, InOrder, Holds;
    var l, r := Content(InOrder(left)), Content(InOrder(right));
    forall k | k in l.Keys
      ensures k !in r.Keys
    {
      assert k in l;
    }
    EmptyForkContent(left, right);
    HoldsBeside(memory, l, r, at, x);
    HoldsBefore(memory, l, r, at + it, y);
  }

  /** The merge overwrites its own side only. */
  lemma ThenJob<T>(first: Job<T>, next: Job<T>, memory: seq<T>, lo: int, bu: int, n: int, at: int, value: seq<T>)
    requires RaceFree(first) && InParts(Content(InOrder(first)), lo, bu, n) && (at == lo || at == bu)
    requires RaceFree(next) && Content(InOrder(next)) == Placed(at, value) && |value| == n
    requires 0 <= at && at + n <= |memory|
    ensures LevelJob(Then(first, next), memory, lo, bu, n, at, value)
  {
    hide Content;
    ContentConcat(InOrder(first), InOrder(next));
    PlacedHolds(memory, Content(InOrder(first)), at, value);
  }

  /** By induction over the levels. */
  lemma {:induction false} SortPlanWorks<T(!new)>(less: (T, T) -> bool, memory: seq<T>, s: seq<T>, lo: int, bu: int, depth: nat, cutoff: int)
    requires StrictWeakOrder(less) && cutoff >= 1 && Laid(memory, s, lo, bu)
    ensures LevelJob(SortPlan(less, s, lo, bu, depth, cutoff), memory, lo, bu, |s|, Side(depth, lo, bu), LevelValue(less, s, depth, cutoff))
    decreases |s|, depth % 2
  {
    hide StrictWeakOrder, Sorted, LevelJob, Plan, Merged, LeafValue, LeafWrites, Content, InOrder, RaceFree, InParts;
    var it := FindCutoff(RandomAccess, 0, cutoff, |s|);
    if it == |s| && Even(depth) {
      LeafJob(less, memory, s, lo, bu);
    } else {
      var x, y := LevelValue(less, s[..it], depth + 1, cutoff), LevelValue(less, s[it..], depth + 1, cutoff);
      var at := Side(depth, lo, bu);
      HalvesWork(less, memory, s, it, lo, bu, depth, cutoff);
      PlanContent(less, x, y, at, cutoff);
      MergedPermutes(less, x, y, cutoff);
      LevelValueSorts(less, s[..it], depth + 1, cutoff);
      LevelValueSorts(less, s[it..], depth + 1, cutoff);
      ThenJob(Halves(less, s, it, lo, bu, depth, cutoff), Plan(less, x, y, at, cutoff), memory, lo, bu, |s|, at, Merged(less, x, y, cutoff));
    }
  }

  lemma {:induction false} HalvesWork<T(!new)>(less: (T, T) -> bool, memory: seq<T>, s: seq<T>, it: int, lo: int, bu: int, depth: nat, cutoff: int)
    requires StrictWeakOrder(less) && cutoff >= 1 && Laid(memory, s, lo, bu)
    requires it == FindCutoff(RandomAccess, 0, cutoff, |s|) && !(it == |s| && Even(depth))
    ensures var job := Halves(less, s, it, lo, bu, depth, cutoff);
            var after := Patch(memory, Content(InOrder(job)));
            var at := Side(depth + 1, lo, bu);
            && RaceFree(job) && InParts(Content(InOrder(job)), lo, bu, |s|)
            && Holds(after, at, LevelValue(less, s[..it], depth + 1, cutoff))
            && Holds(after, at + it, LevelValue(less, s[it..], depth + 1, cutoff))
    decreases |s|, depth % 2, 0
  {
    hide StrictWeakOrder, Sorted, LevelJob, LevelValue, SortPlan, Content, InOrder, RaceFree, InParts;
    HoldsSplit(memory, lo, s, it);
    SortPlanWorks(less, memory, s[..it], lo, bu, depth + 1, cutoff);
    SortPlanWorks(less, memory, s[it..], lo + it, bu + it, depth + 1, cutoff);
    LevelValueSorts(less, s[..it], depth + 1, cutoff);
    LevelValueSorts(less, s[it..], depth + 1, cutoff);
    HalvesJob(SortPlan(less, s[..it], lo, bu, depth + 1, cutoff), SortPlan(less, s[it..], lo + it, bu + it, depth + 1, cutoff),
              memory, lo, bu, it, |s|, Side(depth + 1, lo, bu),
              LevelValue(less, s[..it], depth + 1, cutoff), LevelValue(less, s[it..], depth + 1, cutoff));
  }

  /** However the tasks of the two halves interleave, the merge that follows finds the two sorted halves it was planned for. */
  lemma EveryMergeFindsHalves<T(!new)>(less: (T, T) -> bool, memory: seq<T>, s: seq<T>, it: int, lo: int, bu: int, depth: nat, cutoff: int,
                                       trace: seq<Write<T>>)
    requires StrictWeakOrder(less) && cutoff >= 1 && Laid(memory, s, lo, bu)
    requires it == FindCutoff(RandomAccess, 0, cutoff, |s|) && !(it == |s| && Even(depth))
    requires IsRun(Halves(less, s, it, lo, bu, depth, cutoff), trace)
    ensures var after := Apply(memory, trace); var at := Side(depth + 1, lo, bu);
            && Holds(after, at, LevelValue(less, s[..it], depth + 1, cutoff))
            && Holds(after, at + it, LevelValue(less, s[it..], depth + 1, cutoff))
  {
    hide StrictWeakOrder, Holds, LevelValue, Halves, IsRun, Apply, Content, InOrder, RaceFree, InParts;
    HalvesWork(less, memory, s, it, lo, bu, depth, cutoff);
    EveryRunPatches(memory, Halves(less, s, it, lo, bu, depth, cutoff), trace);
  }

  /**
    Main result: for every interleaving of all tasks of all levels, the level's side ends up holding the
    sorted permutation of the range, and nothing outside the range and the buffer changes.
   */
  lemma EverySortRunSorts<T(!new)>(less: (T, T) -> bool, memory: seq<T>, s: seq<T>, lo: int, bu: int, depth: nat, cutoff: int,
                                   trace: seq<Write<T>>)
    requires StrictWeakOrder(less) && cutoff >= 1 && Laid(memory, s, lo, bu)
    requires IsRun(SortPlan(less, s, lo, bu, depth, cutoff), trace)
    ensures var after := Apply(memory, trace); var at := Side(depth, lo, bu);
            && |after| == |memory|
            && Sorted(less, after[at..at + |s|]) && multiset(after[at..at + |s|]) == multiset(s)
            && forall i :: 0 <= i < |memory| && !(lo <= i < lo + |s|) && !(bu <= i < bu + |s|) ==> after[i] == memory[i]
  {
    hide StrictWeakOrder, Sorted, LevelValue, SortPlan, IsRun, Apply, Content, InOrder, RaceFree;
    SortPlanWorks(less, memory, s, lo, bu, depth, cutoff);
    EveryRunPatches(memory, SortPlan(less, s, lo, bu, depth, cutoff), trace);
    LevelValueSorts(less, s, depth, cutoff);
  }
}

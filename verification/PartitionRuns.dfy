/** Whole runs of the partition protocol: how they start, that they cannot get stuck or go on for ever, how they end. */
module PartitionRuns {
  import opened Tally
  import opened PartitionProtocol
  import opened PartitionInvariant
  import opened PartitionSteps

  /** Every value m_size can take, however many workers overshoot, fits a 32-bit int. Small ranges have one thread. */
  predicate Fits(n: nat, threadNum: int) {
    n < 10000 || Bounded(n, BlockSizeFor(n), InitialThreads(n, threadNum))
  }

  lemma FitsIsBounded(n: nat, threadNum: int)
    ensures Fits(n, threadNum) <==> Bounded(n, BlockSizeFor(n), InitialThreads(n, threadNum))
  {
    if 0 < n < 10000 { LastBlockRange(n, 1000); }
  }

  /** Any range of less than 2^31 elements fits with up to 1000 threads. */
  lemma UsualSizesFit(n: nat, threadNum: int)
    requires n < 0x8000_0000 && 0 <= threadNum <= 1000
    ensures Fits(n, threadNum)
  {
    if n > 0 { LastBlockRange(n, BlockSizeFor(n)); }
    MulMonotone(BlockSizeFor(n), InitialThreads(n, threadNum), 1000);
  }

  /**
    The tokens and the block size the workers start with. A number of threads outside an int counts as the
    int it is converted to.
   */
  lemma StartCounters<T>(input: seq<T>, threadNum: int)
    ensures var n, s := |input|, Start(input, threadNum);
            && s.size == s.rmove == n && s.lmove == s.rtrue == 0 && s.open == InitialThreads(n, threadNum)
            && (-0x8000_0000 <= threadNum < 0x8000_0000 ==> s.open == if n >= 10000 && 1 <= threadNum <= n then threadNum else 1)
            && InitialThreads(n, threadNum + 0x1_0000_0000) == InitialThreads(n, threadNum)
            && (n < 1_001_000 ==> s.blockSize == 1000)
            && (1_000_000 <= n < 0x8000_0000 ==> 1000 * s.blockSize <= n < 1000 * s.blockSize + 1000)
            && (0x8000_0000 <= n < 0x1_0000_0000 ==> s.blockSize == 1000)
  {
  }

  lemma StartOk<T>(input: seq<T>, p: T -> bool, threadNum: int)
    ensures Inv(Start(input, threadNum), p, InitialThreads(|input|, threadNum))
  {
    var s := Start(input, threadNum);
    SumAppend([], InFlight, Ready);
    SumAppend([], PendingIn(s.arr, p), Ready);
    SumAppend([], Token, Ready);
    SumAppend([], Denied, Ready);
    SumAppend([], Workers, Ready);
    SumAppend([], AtClaim, Ready);
    assert [] + [Ready] == s.tasks;
  }

  // ----- Runs -----

  /** The schedule names, step by step, the task that runs next. */
  ghost predicate IsRun<T>(s: State<T>, p: T -> bool, schedule: seq<nat>)
    decreases |schedule|
  {
    schedule == [] ||
    (Enabled(s, schedule[0]) && Safe(s, schedule[0]) && IsRun(Step(s, p, schedule[0]), p, schedule[1..]))
  }

  ghost function After<T>(s: State<T>, p: T -> bool, schedule: seq<nat>): State<T>
    requires IsRun(s, p, schedule)
    decreases |schedule|
  {
    if schedule == [] then s else After(Step(s, p, schedule[0]), p, schedule[1..])
  }

  lemma {:induction false} RunKeeps<T>(s: State<T>, p: T -> bool, threads: int, schedule: seq<nat>)
    requires Inv(s, p, threads) && Bounded(|s.arr|, s.blockSize, threads) && IsRun(s, p, schedule)
    ensures Inv(After(s, p, schedule), p, threads) && After(s, p, schedule).blockSize == s.blockSize
    ensures multiset(After(s, p, schedule).arr) == multiset(s.arr) && |After(s, p, schedule).arr| == |s.arr|
    decreases |schedule|
  {
    if schedule != [] {
      SizeFits(s, p, threads, schedule[0]);
      StepKeeps(s, p, threads, schedule[0]);
      StepPermutes(s, p, schedule[0]);
      RunKeeps(Step(s, p, schedule[0]), p, threads, schedule[1..]);
    }
  }

  lemma StepPermutes<T>(s: State<T>, p: T -> bool, t: nat)
    requires Enabled(s, t) && Safe(s, t)
    ensures multiset(Step(s, p, t).arr) == multiset(s.arr) && |Step(s, p, t).arr| == |s.arr|
  {
    match s.tasks[t]
    case Scanning(b, Compare) =>
      if b.lbs != b.lbe && b.rbs != b.rbe { SwapPermutes(s.arr, b.lbs, b.rbs); }
    case Merging(r, Compare) =>
      if r.lbs != r.lbe && r.rbs != r.rbe { SwapPermutes(s.arr, r.lbs, r.rbs); }
    case _ =>
  }

  // ----- No data race -----

  predicate Owns(task: Task, i: int) {
    OwnsLeft(task, i) || OwnsRight(task, i)
  }

  /** No element ever belongs to two tasks. */
  lemma OwnersAreUnique<T>(s: State<T>, p: T -> bool, threads: int, t: nat, u: nat, i: int)
    requires Inv(s, p, threads) && t < |s.tasks| && u < |s.tasks| && t != u
    requires Owns(s.tasks[t], i)
    ensures 0 <= i < |s.arr| && !Owns(s.tasks[u], i)
  {
  }

  /** s2 is s1 except that elements the task does not own are those of other. */
  ghost predicate DiffersOnlyOutside<T>(s1: State<T>, s2: State<T>, task: Task, other: seq<T>) {
    && s2 == s1.(arr := s2.arr) && |s2.arr| == |s1.arr| == |other|
    && forall i :: 0 <= i < |other| ==> s2.arr[i] == if Owns(task, i) then s1.arr[i] else other[i]
  }

  lemma ScanIsLocal<T>(s: State<T>, p: T -> bool, t: nat, b: Blocks, phase: Phase, other: seq<T>)
    requires t < |s.tasks| && s.tasks[t] == Scanning(b, phase) && Safe(s, t) && BlocksOrdered(b)
    requires DiffersOnlyOutside(s, s.(arr := other), s.tasks[t], other)
    ensures Safe(s.(arr := other), t)
    ensures DiffersOnlyOutside(Scan(s, p, t, b, phase), Scan(s.(arr := other), p, t, b, phase), s.tasks[t], other)
  {
    if b.lbs < b.lbe { assert Owns(s.tasks[t], b.lbs); }
    if b.rbe < b.rbs { assert Owns(s.tasks[t], b.rbs); }
  }

  lemma MergeIsLocal<T>(s: State<T>, p: T -> bool, t: nat, r: Rests, phase: Phase, other: seq<T>)
    requires t < |s.tasks| && s.tasks[t] == Merging(r, phase) && Safe(s, t) && r.lbs <= r.lbe && r.rbs <= r.rbe
    requires DiffersOnlyOutside(s, s.(arr := other), s.tasks[t], other)
    ensures Safe(s.(arr := other), t)
    ensures DiffersOnlyOutside(Merge(s, p, t, r, phase), Merge(s.(arr := other), p, t, r, phase), s.tasks[t], other)
  {
    if r.lbs < r.lbe { assert Owns(s.tasks[t], r.lbs); }
    if r.rbs < r.rbe { assert Owns(s.tasks[t], r.rbs); }
  }

  lemma CountIsLocal<T>(s: State<T>, p: T -> bool, t: nat, b: Blocks, other: seq<T>)
    requires t < |s.tasks| && s.tasks[t] == Counting(b)
    requires DiffersOnlyOutside(s, s.(arr := other), s.tasks[t], other)
    ensures DiffersOnlyOutside(Count(s, p, t, b), Count(s.(arr := other), p, t, b), s.tasks[t], other)
  {
    assert forall i :: b.lbs <= i < b.lbe ==> Owns(s.tasks[t], i);
    assert forall i :: b.rbe + 1 <= i < b.rbs + 1 ==> Owns(s.tasks[t], i);
    CountTrueSame(s.arr, other, p, b.lbs, b.lbe);
    CountTrueSame(s.arr, other, p, b.rbe + 1, b.rbs + 1);
  }

  /**
    A step reads and writes only elements its task owns: put anything else in the other places and
    the step makes the same decision, leaves them alone and does the same to its own.
   */
  lemma StepIsLocal<T>(s: State<T>, p: T -> bool, threads: int, t: nat, other: seq<T>)
    requires Inv(s, p, threads) && Enabled(s, t) && Safe(s, t)
    requires |other| == |s.arr| && forall i :: 0 <= i < |other| && Owns(s.tasks[t], i) ==> other[i] == s.arr[i]
    ensures Enabled(s.(arr := other), t) && Safe(s.(arr := other), t)
    ensures DiffersOnlyOutside(Step(s, p, t), Step(s.(arr := other), p, t), s.tasks[t], other)
  {
    hide Owned, Cleared, Counted, Threads, Sizes, Tree, Claims;
    assert TaskOk(s.arr, s.size, p, s.tasks[t]);
    assert DiffersOnlyOutside(s, s.(arr := other), s.tasks[t], other);
    match s.tasks[t]
    case Scanning(b, phase) => ScanIsLocal(s, p, t, b, phase, other);
    case Merging(r, phase) => MergeIsLocal(s, p, t, r, phase, other);
    case Counting(b) => CountIsLocal(s, p, t, b, other);
    case _ =>
  }

  // ----- No deadlock -----

  predicate Settled(task: Task) {
    task.Done? || task.Joined?
  }

  /** As long as the root has not returned, some task can run. */
  lemma NeverStuck<T>(s: State<T>, p: T -> bool, threads: int)
    requires Inv(s, p, threads) && !Finished(s)
    ensures exists t: nat :: t < |s.tasks| && Enabled(s, t)
  {
    var t := Youngest(s.tasks, |s.tasks|);
    if s.tasks[t].Waiting? {
      assert IsChild(s.tasks[t], s.tasks[t].left) && IsChild(s.tasks[t], s.tasks[t].right);
    }
    assert Enabled(s, t);
  }

  lemma {:induction false} Youngest(tasks: seq<Task>, n: nat) returns (t: nat)
    requires 0 < n <= |tasks| && !Settled(tasks[0])
    ensures t < n && !Settled(tasks[t]) && forall u :: t < u < n ==> Settled(tasks[u])
  {
    if Settled(tasks[n - 1]) {
      t := Youngest(tasks, n - 1);
    } else {
      t := n - 1;
    }
  }

  // ----- How a run ends -----

  lemma {:induction false} AllJoined(tasks: seq<Task>, u: nat)
    requires Tree(tasks) && tasks[0].Done? && 0 < u < |tasks|
    ensures tasks[u].Joined?
    decreases u
  {
    if !tasks[u].Joined? {
      assert HasParent(tasks, u);
      var q: nat :| q < |tasks| && q < u && IsChild(tasks[q], u);
      if q > 0 {
        AllJoined(tasks, q);
      }
      assert false;
    }
  }

  /** The left and right rests hold every element that is on the wrong side of the split between left and right claims. */
  ghost predicate RestsCover<T>(arr: seq<T>, p: T -> bool, split: int, lRest: seq<Interval>, rRest: seq<Interval>) {
    && 0 <= split <= |arr|
    && Ordered(lRest) && Ordered(rRest)
    && (forall i :: InRests(lRest, i) ==> 0 <= i < split)
    && (forall i :: InRests(rRest, i) ==> split <= i < |arr|)
    && (forall i :: 0 <= i < split && !p(arr[i]) ==> InRests(lRest, i))
    && (forall i :: split <= i < |arr| && p(arr[i]) ==> InRests(rRest, i))
  }

  /** When the root returns, the two ends have met, all true elements are counted and only the rests are unsettled. */
  lemma FinishedState<T>(s: State<T>, p: T -> bool, threads: int)
    requires Inv(s, p, threads) && Finished(s)
    ensures s.lmove == s.rmove && s.rtrue == CountTrue(s.arr, p, 0, |s.arr|)
    ensures RestsCover(s.arr, p, s.lmove, s.tasks[0].lDone, s.tasks[0].rDone)
    ensures s.tasks[0].lDone == [] || s.tasks[0].rDone == []
  {
    forall u | 0 < u < |s.tasks|
      ensures s.tasks[u].Joined?
    {
      AllJoined(s.tasks, u);
    }
    SumZero(s.tasks, InFlight);
    SumZero(s.tasks, PendingIn(s.arr, p));
    var root := s.tasks[0];
    assert TaskOk(s.arr, s.size, p, root);
    CountTrueSplit(s.arr, p, 0, s.lmove, |s.arr|);
    FinishedRests(s, p);
  }

  lemma FinishedRests<T>(s: State<T>, p: T -> bool)
    requires Claims(s) && Owned(s) && Cleared(s, p) && Finished(s) && s.lmove == s.rmove
    requires forall u :: 0 < u < |s.tasks| ==> s.tasks[u].Joined?
    requires Ordered(s.tasks[0].lDone) && Ordered(s.tasks[0].rDone)
    ensures RestsCover(s.arr, p, s.lmove, s.tasks[0].lDone, s.tasks[0].rDone)
  {
    var root := s.tasks[0];
    forall i
      ensures InRests(root.lDone, i) ==> 0 <= i < s.lmove
      ensures InRests(root.rDone, i) ==> s.rmove <= i < |s.arr|
    {
      assert OwnsLeft(root, i) <==> InRests(root.lDone, i);
      assert OwnsRight(root, i) <==> InRests(root.rDone, i);
    }
    forall i | 0 <= i < s.lmove && !p(s.arr[i])
      ensures InRests(root.lDone, i)
    {
      var u :| 0 <= u < |s.tasks| && OwnsLeft(s.tasks[u], i);
      assert u == 0;
    }
    forall i | s.rmove <= i < |s.arr| && p(s.arr[i])
      ensures InRests(root.rDone, i)
    {
      var u :| 0 <= u < |s.tasks| && OwnsRight(s.tasks[u], i);
      assert u == 0;
    }
  }
}

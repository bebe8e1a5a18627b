/**
  The partition protocol on ranges of 2^31 elements and more, whichever values the workers read: at least one
  of them reads a negative number, and the block it took from m_size stays where it is.
 */
module PartitionLeftover {
  import opened Tally
  import opened PartitionProtocol
  import opened PartitionInvariant
  import opened PartitionSteps
  import opened PartitionRuns
  import opened PartitionTooLong

  /** m_size cannot fall below -2^31 however many workers overshoot. */
  predicate NeverBelow(n: nat, threadNum: int) {
    BlockSizeFor(n) * InitialThreads(n, threadNum) - LastBlock(n, BlockSizeFor(n)) <= 0x8000_0000
  }

  /** Up to 1000 threads, that is so for every length. */
  lemma UsualThreadsStayAbove(n: nat, threadNum: int)
    requires n > 0 && InitialThreads(n, threadNum) <= 1000
    ensures NeverBelow(n, threadNum)
  {
    var blockSize, threads := BlockSizeFor(n), InitialThreads(n, threadNum);
    LastBlockRange(n, blockSize);
    MulMonotone(blockSize, threads, 1000);
    BlockSizeInt(n);
  }

  /** The elements taken from either end or about to be. */
  ghost function Taken<T>(s: State<T>): int {
    s.lmove + |s.arr| - s.rmove + SumOver(s.tasks, InFlight)
  }

  /** No more is taken than was subtracted from m_size, and a block less once m_size is below 2^31. */
  ghost predicate LeavesABlock<T>(s: State<T>, n: nat, threads: int) {
    && |s.arr| == n && s.blockSize == BlockSizeFor(n)
    && Threads(s, threads) && Sizes(s, threads) && Tree(s.tasks)
    && Taken(s) <= n - Positive(s.size)
    && (s.size < 0x8000_0000 ==> Taken(s) + s.blockSize <= n - Positive(s.size))
  }

  /** How much a worker may take that has read size from m_size. */
  predicate TakesAtMost(size: int, blockSize: int, taken: int) {
    && taken <= blockSize
    && (size < 0x8000_0000 ==> taken <= Positive(size) - Positive(size - blockSize))
    && (0x8000_0000 <= size < 0x8000_0000 + blockSize ==> taken <= 0)
  }

  lemma LocalLeaves<T>(s: State<T>, s': State<T>, n: nat, threads: int, t: nat, task: Task, taken: int)
    requires LeavesABlock(s, n, threads) && t < |s.tasks| && AccountsKept(s, s', s.tasks[t], task)
    requires s'.tasks == s.tasks[t := task]
    requires !s.tasks[t].Waiting? && !s.tasks[t].Joined? && !task.Waiting? && !task.Joined?
    requires s'.lmove - s'.rmove + InFlight(task) == s.lmove - s.rmove + InFlight(s.tasks[t]) + taken
    requires if s'.size == s.size then taken == 0 else TakesAtMost(s.size, s.blockSize, taken)
    ensures LeavesABlock(s', n, threads)
  {
    hide SumOver, Threads, Sizes, Tree;
    AccountsKeepThreads(s, s', threads, t, task);
    AccountsKeepSizes(s, s', threads, t, task);
    SimpleKeepsTree(s.tasks, t, task);
    SumUpdate(s.tasks, InFlight, t, task);
  }

  /** A value just above 2^31 is read as a negative number, one of 0 or less as what it is. */
  lemma ReadTakes(size: int, blockSize: int)
    requires size >= -0x8000_0000 && 0 < blockSize <= 0x8000_0000
    ensures var mySize := ToInt32(size);
            TakesAtMost(size, blockSize, if mySize <= 0 then 0 else if mySize > blockSize then blockSize else mySize)
  {
    if size < 0x8000_0000 { ToInt32Exact(size); }
  }

  lemma ClaimerReads<T>(s: State<T>, n: nat, threads: int, t: nat)
    requires s.blockSize > 0 && Sizes(s, threads) && |s.arr| == n && t < |s.tasks| && s.tasks[t].Claiming?
    requires s.blockSize * threads - LastBlock(n, s.blockSize) <= 0x8000_0000
    ensures s.size >= -0x8000_0000
  {
    hide LastBlock;
    assert forall u :: 0 <= u < |s.tasks| ==> AtClaim(s.tasks[u]) >= 0;
    SumNonNegative(s.tasks, AtClaim);
    MulMonotone(s.blockSize, AtClaim(s.tasks[t]), SumOver(s.tasks, AtClaim));
  }

  lemma ClaimLeaves<T>(s: State<T>, n: nat, threads: int, t: nat, b: Blocks)
    requires LeavesABlock(s, n, threads) && t < |s.tasks| && s.tasks[t] == Claiming(b)
    requires s.blockSize * threads - LastBlock(n, s.blockSize) <= 0x8000_0000
    ensures LeavesABlock(Claim(s, t, b), n, threads)
  {
    ClaimerReads(s, n, threads, t);
    hide SumOver, Threads, Sizes, Tree, LastBlock, ToInt32, TakesAtMost;
    assert 0 < s.blockSize <= 0x8000_0000 by {
      BlockSizeInt(n);
    }
    ReadTakes(s.size, s.blockSize);
    var task := Claim(s, t, b).tasks[t];
    LocalLeaves(s, Claim(s, t, b), n, threads, t, task, InFlight(task));
  }

  lemma BlockSizeInt(n: nat)
    ensures 0 < BlockSizeFor(n) <= 2147483
  {
  }

  lemma SplitLeaves<T>(s: State<T>, n: nat, threads: int, t: nat)
    requires LeavesABlock(s, n, threads) && t < |s.tasks| && s.tasks[t].Entered? && s.tasks[t].threadsLeft >= 1
    ensures LeavesABlock(Split(s, t), n, threads)
  {
    hide SumOver, Threads, Sizes, Tree;
    SplitKeepsThreads(s, threads, t);
    SplitKeepsSizes(s, threads, t);
    SplitKeepsTree(s.tasks, t);
    SumSplit(s.tasks, InFlight, t);
  }

  lemma JoinLeaves<T>(s: State<T>, n: nat, threads: int, t: nat, c1: nat, c2: nat)
    requires LeavesABlock(s, n, threads) && CanJoin(s.tasks, t, c1, c2)
    ensures LeavesABlock(Join(s, t, c1, c2), n, threads)
  {
    hide SumOver, Threads, Sizes, Tree;
    var parent := Join(s, t, c1, c2).tasks[t];
    JoinKeepsThreads(s, threads, t, c1, c2);
    JoinKeepsSizes(s, threads, t, c1, c2);
    JoinKeepsTree(s.tasks, t, c1, c2, parent);
    SumJoin(s.tasks, InFlight, t, c1, c2, parent);
  }

  lemma WorkLeaves<T>(s: State<T>, p: T -> bool, n: nat, threads: int, t: nat)
    requires LeavesABlock(s, n, threads) && Enabled(s, t) && Safe(s, t)
    requires !(s.tasks[t].Entered? && s.tasks[t].threadsLeft >= 1 && s.size >= 0) && !s.tasks[t].Waiting? && !s.tasks[t].Claiming?
    ensures LeavesABlock(Step(s, p, t), n, threads)
  {
    hide LeavesABlock, CountTrue;
    LocalLeaves(s, Step(s, p, t), n, threads, t, Step(s, p, t).tasks[t], 0);
  }

  lemma StepLeaves<T>(s: State<T>, p: T -> bool, n: nat, threads: int, t: nat)
    requires LeavesABlock(s, n, threads) && s.blockSize * threads - LastBlock(n, s.blockSize) <= 0x8000_0000
    requires Enabled(s, t) && Safe(s, t)
    ensures LeavesABlock(Step(s, p, t), n, threads)
  {
    hide Threads, Sizes, SumOver, CountTrue, LastBlock, Safe, Count, Scan, Merge, Pair, Place;
    if s.tasks[t].Entered? && s.tasks[t].threadsLeft >= 1 && s.size >= 0 {
      SplitLeaves(s, n, threads, t);
    } else if s.tasks[t].Waiting? {
      var c1, c2 := s.tasks[t].left, s.tasks[t].right;
      assert IsChild(s.tasks[t], c1) && IsChild(s.tasks[t], c2);
      JoinLeaves(s, n, threads, t, c1, c2);
    } else if s.tasks[t].Claiming? {
      ClaimLeaves(s, n, threads, t, s.tasks[t].b);
    } else {
      WorkLeaves(s, p, n, threads, t);
    }
  }

  lemma {:induction false} RunLeaves<T>(s: State<T>, p: T -> bool, n: nat, threads: int, schedule: seq<nat>)
    requires LeavesABlock(s, n, threads) && s.blockSize * threads - LastBlock(n, s.blockSize) <= 0x8000_0000
    requires IsRun(s, p, schedule)
    ensures LeavesABlock(After(s, p, schedule), n, threads)
    decreases |schedule|
  {
    hide LeavesABlock, LastBlock;
    if schedule != [] {
      StepLeaves(s, p, n, threads, schedule[0]);
      SameBlockSize(s, Step(s, p, schedule[0]), n, threads);
      RunLeaves(Step(s, p, schedule[0]), p, n, threads, schedule[1..]);
    }
  }

  lemma SameBlockSize<T>(s: State<T>, s': State<T>, n: nat, threads: int)
    requires LeavesABlock(s, n, threads) && LeavesABlock(s', n, threads)
    ensures s'.blockSize == s.blockSize
  {
  }

  lemma StartLeaves<T>(input: seq<T>, p: T -> bool, threadNum: int)
    requires |input| >= 0x8000_0000
    ensures LeavesABlock(Start(input, threadNum), |input|, InitialThreads(|input|, threadNum))
  {
    hide SumOver, Threads, Sizes, Tree;
    StartAccounts(input, p, threadNum);
  }

  /**
    From 2^31 elements on, with whatever schedule that stays inside the range: when all tasks are done, at
    least one block between the two ends has been claimed by nobody, so the ends have not met as the final
    callback takes for granted.
   */
  lemma SomeBlockIsLeft<T>(input: seq<T>, p: T -> bool, threadNum: int, schedule: seq<nat>)
    requires |input| >= 0x8000_0000 && NeverBelow(|input|, threadNum)
    requires IsRun(Start(input, threadNum), p, schedule) && Finished(After(Start(input, threadNum), p, schedule))
    ensures var s := After(Start(input, threadNum), p, schedule);
            s.blockSize > 0 && s.lmove + s.blockSize <= s.rmove
  {
    hide IsRun, After, Threads, Sizes, LastBlock;
    var threads := InitialThreads(|input|, threadNum);
    var s := After(Start(input, threadNum), p, schedule);
    StartLeaves(input, p, threadNum);
    RunLeaves(Start(input, threadNum), p, |input|, threads, schedule);
    forall u: nat | u < |s.tasks|
      ensures InFlight(s.tasks[u]) == 0
    {
      if u > 0 { AllJoined(s.tasks, u); }
    }
    SumZero(s.tasks, InFlight);
  }
}

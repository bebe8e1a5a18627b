/**
  The partition protocol on ranges of 2^31 elements and more: when every worker reads a claim as a negative
  number, all of them leave at once and nothing is partitioned.
 */
module PartitionTooLong {
  import opened Tally
  import opened PartitionProtocol
  import opened PartitionInvariant
  import opened PartitionSteps
  import opened PartitionRuns
  import opened PartitionFinish

  /** From 2^31 elements on and below 2^32, with enough elements for each worker to read one such value. */
  predicate Unclaimable(n: nat, threadNum: int) {
    0x8000_0000 + 1000 * InitialThreads(n, threadNum) <= n < 0x1_0000_0000
  }

  /** Twice the number of workers that have left. */
  function Gone(task: Task): int {
    if task.Joined? then 1 else if PastLoop(task) then 2 else 0
  }

  /** A task that owns nothing and has nothing to report. */
  predicate Idle(task: Task, n: nat) {
    var empty := Blocks(0, 0, n, n, 0);
    match task
    case Testing(b) => b == empty
    case Claiming(b) => b == empty
    case Counting(b) => b == empty
    case Publishing(found, l, r) => found == 0 && l == [] && r == []
    case Done(l, r) => l == [] && r == []
    case Pairing(r) => r == Rests([], [], 0, 0, n, n)
    case Placing(_, _) => false
    case Scanning(_, _) => false
    case Merging(_, _) => false
    case _ => true
  }

  /** Nothing has happened to the range, and every worker has taken at most one block's worth from m_size. */
  ghost predicate Untouched<T>(s: State<T>, input: seq<T>, threads: int) {
    && s.arr == input && s.blockSize == 1000 && s.lmove == 0 && s.rmove == |input| && s.rtrue == 0
    && (forall t :: 0 <= t < |s.tasks| ==> Idle(s.tasks[t], |input|))
    && Threads(s, threads) && Tree(s.tasks)
    && s.size <= |input| && 2 * (|input| - s.size) <= 1000 * SumOver(s.tasks, Gone)
  }

  lemma {:induction false} GoneAreWorkers(tasks: seq<Task>)
    ensures SumOver(tasks, Gone) <= SumOver(tasks, Workers)
  {
    if tasks != [] {
      GoneAreWorkers(tasks[..|tasks| - 1]);
    }
  }

  lemma {:induction false} OneNotGone(tasks: seq<Task>, t: nat)
    requires t < |tasks| && Gone(tasks[t]) == 0 && Workers(tasks[t]) == 2
    ensures SumOver(tasks, Gone) + 2 <= SumOver(tasks, Workers)
  {
    var n := |tasks| - 1;
    if t == n {
      GoneAreWorkers(tasks[..n]);
    } else {
      OneNotGone(tasks[..n], t);
    }
  }

  /** m_size stays positive, and a worker that is about to claim reads a value that does not fit an int. */
  lemma SizeTooLarge<T>(s: State<T>, input: seq<T>, threads: int)
    requires Untouched(s, input, threads) && 0x8000_0000 + 1000 * threads <= |input| < 0x1_0000_0000
    ensures s.size > 0
    ensures forall t :: 0 <= t < |s.tasks| && s.tasks[t].Claiming? ==> 0x8000_0000 <= s.size < 0x1_0000_0000
  {
    DeniedAtMostTokens(s.tasks);
    GoneAreWorkers(s.tasks);
    assert forall t :: 0 <= t < |s.tasks| ==> Gone(s.tasks[t]) >= 0;
    SumNonNegative(s.tasks, Gone);
    forall t | 0 <= t < |s.tasks| && s.tasks[t].Claiming?
      ensures 0x8000_0000 <= s.size < 0x1_0000_0000
    {
      OneNotGone(s.tasks, t);
    }
  }

  /** A step that changes one task and perhaps m_size or m_open_threads. */
  lemma LocalUntouched<T>(s: State<T>, s': State<T>, input: seq<T>, threads: int, t: nat, task: Task)
    requires Untouched(s, input, threads) && t < |s.tasks| && AccountsKept(s, s', s.tasks[t], task)
    requires s'.tasks == s.tasks[t := task] && s'.arr == s.arr && s'.blockSize == s.blockSize
    requires s'.lmove == s.lmove && s'.rmove == s.rmove && s'.rtrue == s.rtrue
    requires Idle(task, |input|) && 2 * (s.size - s'.size) <= 1000 * (Gone(task) - Gone(s.tasks[t]))
    ensures Untouched(s', input, threads)
  {
    hide SumOver, Threads, Tree;
    AccountsKeepThreads(s, s', threads, t, task);
    SimpleKeepsTree(s.tasks, t, task);
    SumUpdate(s.tasks, Gone, t, task);
  }

  lemma SplitUntouched<T>(s: State<T>, input: seq<T>, threads: int, t: nat)
    requires Untouched(s, input, threads) && t < |s.tasks| && s.tasks[t].Entered? && s.tasks[t].threadsLeft >= 1
    ensures Untouched(Split(s, t), input, threads)
  {
    hide SumOver, Threads, Tree;
    SplitKeepsThreads(s, threads, t);
    SplitKeepsTree(s.tasks, t);
    SumSplit(s.tasks, Gone, t);
  }

  lemma JoinUntouched<T>(s: State<T>, input: seq<T>, threads: int, t: nat, c1: nat, c2: nat)
    requires Untouched(s, input, threads) && CanJoin(s.tasks, t, c1, c2)
    ensures Untouched(Join(s, t, c1, c2), input, threads)
  {
    hide SumOver, Threads, Tree;
    var parent := Join(s, t, c1, c2).tasks[t];
    var none: seq<Interval> := [];
    assert Idle(s.tasks[c1], |input|) && Idle(s.tasks[c2], |input|) && none + none == none;
    JoinKeepsThreads(s, threads, t, c1, c2);
    JoinKeepsTree(s.tasks, t, c1, c2, parent);
    SumJoin(s.tasks, Gone, t, c1, c2, parent);
  }

  lemma StepUntouched<T>(s: State<T>, p: T -> bool, input: seq<T>, threads: int, t: nat)
    requires Untouched(s, input, threads) && 0x8000_0000 + 1000 * threads <= |input| < 0x1_0000_0000
    requires Enabled(s, t) && Safe(s, t)
    ensures Untouched(Step(s, p, t), input, threads)
  {
    SizeTooLarge(s, input, threads);
    assert Idle(s.tasks[t], |input|);
    if s.tasks[t].Entered? && s.tasks[t].threadsLeft >= 1 {
      SplitUntouched(s, input, threads, t);
    } else if s.tasks[t].Waiting? {
      var c1, c2 := s.tasks[t].left, s.tasks[t].right;
      assert IsChild(s.tasks[t], c1) && IsChild(s.tasks[t], c2);
      JoinUntouched(s, input, threads, t, c1, c2);
    } else {
      hide Threads, Tree, SumOver, Untouched;
      LocalUntouched(s, Step(s, p, t), input, threads, t, Step(s, p, t).tasks[t]);
    }
  }

  lemma {:induction false} RunUntouched<T>(s: State<T>, p: T -> bool, input: seq<T>, threads: int, schedule: seq<nat>)
    requires Untouched(s, input, threads) && 0x8000_0000 + 1000 * threads <= |input| < 0x1_0000_0000
    requires IsRun(s, p, schedule)
    ensures Untouched(After(s, p, schedule), input, threads)
    decreases |schedule|
  {
    if schedule != [] {
      StepUntouched(s, p, input, threads, schedule[0]);
      RunUntouched(Step(s, p, schedule[0]), p, input, threads, schedule[1..]);
    }
  }

  /**
    Whatever the schedule: no element is claimed or moved, nothing is counted, and when the root is done it
    hands two empty rest lists to the final callback, which then returns position 0. That is right only when
    there is no true element.
   */
  lemma NothingIsPartitioned<T>(input: seq<T>, p: T -> bool, threadNum: int, schedule: seq<nat>)
    requires Unclaimable(|input|, threadNum) && IsRun(Start(input, threadNum), p, schedule)
    ensures var s := After(Start(input, threadNum), p, schedule);
            && s.arr == input && s.lmove == 0 && s.rmove == |input| && s.rtrue == 0
            && (Finished(s) ==> s.tasks[0] == Done([], []))
            && (Partitioned(s.arr, p, 0) <==> forall i :: 0 <= i < |input| ==> !p(input[i]))
  {
    hide IsRun, After, Threads, Tree, SumOver;
    var start := Start(input, threadNum);
    var threads := InitialThreads(|input|, threadNum);
    StartUntouched(input, p, threadNum);
    RunUntouched(start, p, input, threads, schedule);
    RootExists(After(start, p, schedule), input, threads);
    assert Idle(After(start, p, schedule).tasks[0], |input|);
  }

  lemma StartAccounts<T>(input: seq<T>, p: T -> bool, threadNum: int)
    ensures var s := Start(input, threadNum);
            var threads := InitialThreads(|input|, threadNum);
            s.blockSize > 0 && Threads(s, threads) && Sizes(s, threads) && Tree(s.tasks) && SumOver(s.tasks, InFlight) == 0
  {
    hide Threads, Sizes, Tree, LastBlock, Owned, Cleared, Counted, TasksOk;
    StartOk(input, p, threadNum);
    SumAppend([], InFlight, Ready);
    assert [] + [Ready] == Start(input, threadNum).tasks;
  }

  lemma StartUntouched<T>(input: seq<T>, p: T -> bool, threadNum: int)
    requires Unclaimable(|input|, threadNum)
    ensures Untouched(Start(input, threadNum), input, InitialThreads(|input|, threadNum))
  {
    hide SumOver, Threads, Sizes, Tree, LastBlock;
    StartAccounts(input, p, threadNum);
    SumAppend([], Gone, Ready);
    assert [] + [Ready] == Start(input, threadNum).tasks;
    NoSum();
  }

  lemma NoSum()
    ensures SumOver([], Gone) == 0
  {
  }

  lemma RootExists<T>(s: State<T>, input: seq<T>, threads: int)
    requires Untouched(s, input, threads)
    ensures |s.tasks| > 0
  {
  }
}

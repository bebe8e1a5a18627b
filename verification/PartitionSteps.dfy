/** Every step of the partition protocol keeps the invariant. */
module PartitionSteps {
  import opened Tally
  import opened PartitionProtocol
  import opened PartitionInvariant

  // ----- Claimed elements are always inside the range -----

  lemma Safety<T>(s: State<T>, p: T -> bool, threads: int, t: nat)
    requires Inv(s, p, threads) && t < |s.tasks|
    ensures Safe(s, t)
  {
    var task := s.tasks[t];
    assert TaskOk(s.arr, s.size, p, task);
    match task
    case Scanning(b, _) =>
      if b.lbs < b.lbe { assert OwnsLeft(task, b.lbs); }
      if b.rbe < b.rbs { assert OwnsRight(task, b.rbs); }
    case Counting(b) =>
      if b.lbs < b.lbe { assert OwnsLeft(task, b.lbs) && OwnsLeft(task, b.lbe - 1); }
      if b.rbe < b.rbs { assert OwnsRight(task, b.rbs) && OwnsRight(task, b.rbe + 1); }
    case Merging(r, _) =>
      if r.lbs < r.lbe { assert OwnsLeft(task, r.lbs); }
      if r.rbs < r.rbe { assert OwnsRight(task, r.rbs); }
    case _ =>
  }

  // ----- Steps on counters only -----

  lemma EnterKeeps<T>(s: State<T>, p: T -> bool, threads: int, t: nat)
    requires Inv(s, p, threads) && t < |s.tasks| && s.tasks[t].Ready?
    ensures Inv(SetTask(s, t, Entered(s.open)).(open := s.open - 1), p, threads)
  {
    var s' := SetTask(s, t, Entered(s.open)).(open := s.open - 1);
    LocalStep(s, s', p, threads, t, Entered(s.open));
  }

  lemma LeaveKeeps<T>(s: State<T>, p: T -> bool, threads: int, t: nat)
    requires Inv(s, p, threads) && t < |s.tasks| && s.tasks[t].Leaving?
    ensures Inv(SetTask(s, t, Testing(Blocks(0, 0, |s.arr|, |s.arr|, 0))).(open := s.open + 1), p, threads)
  {
    var task := Testing(Blocks(0, 0, |s.arr|, |s.arr|, 0));
    LocalStep(s, SetTask(s, t, task).(open := s.open + 1), p, threads, t, task);
  }

  lemma TestKeeps<T>(s: State<T>, p: T -> bool, threads: int, t: nat, b: Blocks)
    requires Inv(s, p, threads) && t < |s.tasks| && s.tasks[t] == Testing(b)
    ensures Inv(SetTask(s, t, if s.size > 0 then Claiming(b) else Counting(b)), p, threads)
  {
    var task := if s.size > 0 then Claiming(b) else Counting(b);
    assert TaskOk(s.arr, s.size, p, s.tasks[t]);
    LocalStep(s, SetTask(s, t, task), p, threads, t, task);
  }

  /** The range is below 2^31 elements, and m_size cannot fall below -2^31 however many workers overshoot. */
  predicate Bounded(n: nat, blockSize: int, threads: int) {
    n < 0x8000_0000 && blockSize > 0 && blockSize * threads - LastBlock(n, blockSize) <= 0x8000_0000
  }

  /** Then no conversion to int ever loses anything. */
  lemma SizeFits<T>(s: State<T>, p: T -> bool, threads: int, t: nat)
    requires Inv(s, p, threads) && Bounded(|s.arr|, s.blockSize, threads) && t < |s.tasks|
    ensures Exact(s, t)
  {
    if s.tasks[t].Claiming? {
      assert forall u :: 0 <= u < |s.tasks| ==> AtClaim(s.tasks[u]) >= 0;
      SumNonNegative(s.tasks, AtClaim);
      MulMonotone(s.blockSize, AtClaim(s.tasks[t]), SumOver(s.tasks, AtClaim));
      ToInt32Exact(s.size);
    }
    ToInt32Exact(s.lmove);
    ToInt32Exact(s.rmove);
  }

  lemma ToInt32Exact(x: int)
    ensures ToInt32(x) == x <==> -0x8000_0000 <= x < 0x8000_0000
  {
  }

  lemma ClaimKeeps<T>(s: State<T>, p: T -> bool, threads: int, t: nat, b: Blocks)
    requires Inv(s, p, threads) && t < |s.tasks| && s.tasks[t] == Claiming(b) && Exact(s, t)
    ensures Inv(Claim(s, t, b), p, threads)
  {
    assert TaskOk(s.arr, s.size, p, s.tasks[t]);
    var s' := Claim(s, t, b);
    LocalStep(s, s', p, threads, t, s'.tasks[t]);
  }

  // ----- Posting two subtasks -----

  lemma DecideKeeps<T>(s: State<T>, p: T -> bool, threads: int, t: nat, threadsLeft: int)
    requires Inv(s, p, threads) && t < |s.tasks| && s.tasks[t] == Entered(threadsLeft)
    ensures Inv(Decide(s, t, threadsLeft), p, threads)
  {
    if threadsLeft < 1 || s.size < 0 {
      LocalStep(s, SetTask(s, t, Leaving(threadsLeft)), p, threads, t, Leaving(threadsLeft));
    } else {
      SplitKeeps(s, p, threads, t);
    }
  }

  lemma SumSplit(tasks: seq<Task>, f: Task -> int, t: nat)
    requires t < |tasks|
    ensures SumOver(tasks[t := Waiting(|tasks|, |tasks| + 1)] + [Ready] + [Ready], f)
            == SumOver(tasks, f) - f(tasks[t]) + f(Waiting(|tasks|, |tasks| + 1)) + 2 * f(Ready)
  {
    var w := tasks[t := Waiting(|tasks|, |tasks| + 1)];
    SumUpdate(tasks, f, t, Waiting(|tasks|, |tasks| + 1));
    SumAppend(w, f, Ready);
    SumAppend(w + [Ready], f, Ready);
  }

  lemma SplitKeepsTree(tasks: seq<Task>, t: nat)
    requires Tree(tasks) && t < |tasks| && tasks[t].Entered?
    ensures Tree(tasks[t := Waiting(|tasks|, |tasks| + 1)] + [Ready] + [Ready])
  {
    var n := |tasks|;
    var after := tasks[t := Waiting(n, n + 1)] + [Ready] + [Ready];
    forall u: nat, c: nat {:trigger IsChild(after[u], c)} | u < |after| && IsChild(after[u], c)
      ensures u < c < |after| && !after[c].Joined? && (if u == t then c == n || c == n + 1 else c < n && IsChild(tasks[u], c))
    {
      if u != t { assert IsChild(tasks[u], c); }
    }
    SplitKeepsParents(tasks, t);
  }

  lemma SplitKeepsParents(tasks: seq<Task>, t: nat)
    requires Parented(tasks) && t < |tasks| && tasks[t].Entered?
    ensures Parented(tasks[t := Waiting(|tasks|, |tasks| + 1)] + [Ready] + [Ready])
  {
    var n := |tasks|;
    var after := tasks[t := Waiting(n, n + 1)] + [Ready] + [Ready];
    assert IsChild(after[t], n) && IsChild(after[t], n + 1);
    forall u: nat | 0 < u < |after| && !after[u].Joined?
      ensures HasParent(after, u)
    {
      if u < n {
        assert HasParent(tasks, u);
        var q: nat :| q < |tasks| && q < u && IsChild(tasks[q], u);
        assert IsChild(after[q], u);
      }
    }
  }

  lemma SplitKeepsOwned<T>(s: State<T>, p: T -> bool, t: nat)
    requires 0 <= s.lmove <= s.rmove <= |s.arr| && Owned(s) && Cleared(s, p)
    requires t < |s.tasks| && s.tasks[t].Entered?
    ensures Owned(Split(s, t)) && Cleared(Split(s, t), p)
  {
    var s' := Split(s, t);
    var n := |s.tasks|;
    assert forall u :: 0 <= u < n && u != t ==> s'.tasks[u] == s.tasks[u];
    assert forall u, i {:trigger OwnsLeft(s'.tasks[u], i)} :: 0 <= u < |s'.tasks| && OwnsLeft(s'.tasks[u], i) ==> u < n && OwnsLeft(s.tasks[u], i);
    assert forall u, i {:trigger OwnsRight(s'.tasks[u], i)} :: 0 <= u < |s'.tasks| && OwnsRight(s'.tasks[u], i) ==> u < n && OwnsRight(s.tasks[u], i);
    forall i | 0 <= i < s.lmove && !p(s.arr[i])
      ensures SomeOwnsLeft(s'.tasks, i)
    {
      var u :| 0 <= u < n && OwnsLeft(s.tasks[u], i);
      assert OwnsLeft(s'.tasks[u], i);
    }
    forall i | s.rmove <= i < |s.arr| && p(s.arr[i])
      ensures SomeOwnsRight(s'.tasks, i)
    {
      var u :| 0 <= u < n && OwnsRight(s.tasks[u], i);
      assert OwnsRight(s'.tasks[u], i);
    }
  }

  lemma SplitKeepsCounts<T>(s: State<T>, p: T -> bool, t: nat)
    requires Claims(s) && Counted(s, p) && t < |s.tasks| && s.tasks[t].Entered?
    ensures Claims(Split(s, t)) && Counted(Split(s, t), p)
  {
    hide CountTrue, PendingBlocks, SumOver;
    SumSplit(s.tasks, InFlight, t);
    SumSplit(s.tasks, PendingIn(s.arr, p), t);
  }

  lemma SplitKeepsThreads<T>(s: State<T>, threads: int, t: nat)
    requires Threads(s, threads) && t < |s.tasks| && s.tasks[t].Entered? && s.tasks[t].threadsLeft >= 1
    ensures Threads(Split(s, t), threads)
  {
    hide SumOver;
    SumSplit(s.tasks, Token, t);
    SumSplit(s.tasks, Denied, t);
    SumSplit(s.tasks, Workers, t);
  }

  lemma SplitKeepsSizes<T>(s: State<T>, threads: int, t: nat)
    requires s.blockSize > 0 && Sizes(s, threads) && t < |s.tasks| && s.tasks[t].Entered?
    ensures Sizes(Split(s, t), threads)
  {
    hide SumOver;
    SumSplit(s.tasks, AtClaim, t);
  }

  lemma SplitKeeps<T>(s: State<T>, p: T -> bool, threads: int, t: nat)
    requires Inv(s, p, threads) && t < |s.tasks| && s.tasks[t].Entered? && s.tasks[t].threadsLeft >= 1
    ensures Inv(Split(s, t), p, threads)
  {
    hide Owned, Cleared, Counted, Threads, Sizes, Tree;
    SplitKeepsTree(s.tasks, t);
    SplitKeepsOwned(s, p, t);
    SplitKeepsCounts(s, p, t);
    SplitKeepsThreads(s, threads, t);
    SplitKeepsSizes(s, threads, t);
    assert TasksOk(Split(s, t), p) by {
      assert forall u :: 0 <= u < |s.tasks| ==> TaskOk(s.arr, s.size, p, s.tasks[u]);
    }
  }

  // ----- Taking a block from either end -----

  lemma PlaceKeepsCounts<T>(s: State<T>, p: T -> bool, t: nat, b: Blocks, mySize: int)
    requires Claims(s) && Counted(s, p) && TasksOk(s, p)
    requires t < |s.tasks| && s.tasks[t] == Placing(b, mySize) && Exact(s, t)
    ensures Claims(Place(s, t, b, mySize)) && Counted(Place(s, t, b, mySize), p)
  {
    hide SumOver;
    var s' := Place(s, t, b, mySize);
    var task := s'.tasks[t];
    assert TaskOk(s.arr, s.size, p, s.tasks[t]);
    SumUpdate(s.tasks, InFlight, t, task);
    SumUpdate(s.tasks, PendingIn(s.arr, p), t, task);
    InFlightCovers(s, p, t);
    if b.lbs == b.lbe {
      CountTrueSplit(s.arr, p, 0, s.lmove, s'.lmove);
    } else {
      CountTrueSplit(s.arr, p, s'.rmove, s.rmove, |s.arr|);
    }
  }

  lemma InFlightCovers<T>(s: State<T>, p: T -> bool, t: nat)
    requires TasksOk(s, p) && t < |s.tasks|
    ensures SumOver(s.tasks, InFlight) >= InFlight(s.tasks[t])
  {
    assert forall u :: 0 <= u < |s.tasks| ==> TaskOk(s.arr, s.size, p, s.tasks[u]);
    SumNonNegative(s.tasks, InFlight);
  }

  lemma PlaceKeepsOwned<T>(s: State<T>, p: T -> bool, t: nat, b: Blocks, mySize: int)
    requires Claims(s) && Owned(s) && Cleared(s, p) && TasksOk(s, p)
    requires t < |s.tasks| && s.tasks[t] == Placing(b, mySize) && Exact(s, t) && Claims(Place(s, t, b, mySize))
    ensures Owned(Place(s, t, b, mySize)) && Cleared(Place(s, t, b, mySize), p)
  {
    hide SumOver, InRests, CountTrue;
    var s' := Place(s, t, b, mySize);
    assert TaskOk(s.arr, s.size, p, s.tasks[t]);
    assert forall u, i {:trigger OwnsLeft(s'.tasks[u], i)} :: 0 <= u < |s'.tasks| && OwnsLeft(s'.tasks[u], i) ==>
        OwnsLeft(s.tasks[u], i) || (u == t && s.lmove <= i < s'.lmove);
    assert forall u, i {:trigger OwnsRight(s'.tasks[u], i)} :: 0 <= u < |s'.tasks| && OwnsRight(s'.tasks[u], i) ==>
        OwnsRight(s.tasks[u], i) || (u == t && s'.rmove <= i < s.rmove);
    forall i | 0 <= i < s'.lmove && !p(s.arr[i])
      ensures SomeOwnsLeft(s'.tasks, i)
    {
      if s.lmove <= i {
        assert OwnsLeft(s'.tasks[t], i);
      } else {
        var u :| 0 <= u < |s.tasks| && OwnsLeft(s.tasks[u], i);
        assert OwnsLeft(s'.tasks[u], i);
      }
    }
    forall i | s'.rmove <= i < |s.arr| && p(s.arr[i])
      ensures SomeOwnsRight(s'.tasks, i)
    {
      if i < s.rmove {
        assert OwnsRight(s'.tasks[t], i);
      } else {
        var u :| 0 <= u < |s.tasks| && OwnsRight(s.tasks[u], i);
        assert OwnsRight(s'.tasks[u], i);
      }
    }
  }

  lemma PlaceKeeps<T>(s: State<T>, p: T -> bool, threads: int, t: nat, b: Blocks, mySize: int)
    requires Inv(s, p, threads) && t < |s.tasks| && s.tasks[t] == Placing(b, mySize) && Exact(s, t)
    ensures Inv(Place(s, t, b, mySize), p, threads)
  {
    var s' := Place(s, t, b, mySize);
    PlaceKeepsCounts(s, p, t, b, mySize);
    PlaceKeepsOwned(s, p, t, b, mySize);
    SimpleKeepsTree(s.tasks, t, s'.tasks[t]);
    AccountsKeepThreads(s, s', threads, t, s'.tasks[t]);
    AccountsKeepSizes(s, s', threads, t, s'.tasks[t]);
    assert TasksOk(s', p);
  }

  // ----- Exchanging a false left element with a true right one -----

  /** What the elements at i and j mean to a task that owns neither is not changed by exchanging them. */
  lemma SwapHidden<T>(arr: seq<T>, p: T -> bool, size: int, task: Task, i: int, j: int)
    requires 0 <= i < |arr| && 0 <= j < |arr| && TaskOk(arr, size, p, task)
    requires !OwnsLeft(task, i) && !OwnsLeft(task, j) && !OwnsRight(task, i) && !OwnsRight(task, j)
    ensures TaskOk(Swap(arr, i, j), size, p, task)
    ensures Pending(Swap(arr, i, j), p, task) == Pending(arr, p, task)
  {
    match task
    case Testing(b) => SwapHiddenBlocks(arr, p, b, i, j);
    case Claiming(b) => SwapHiddenBlocks(arr, p, b, i, j);
    case Placing(b, _) => SwapHiddenBlocks(arr, p, b, i, j);
    case Scanning(b, _) => SwapHiddenBlocks(arr, p, b, i, j);
    case Counting(b) => SwapHiddenBlocks(arr, p, b, i, j);
    case _ =>
  }

  lemma SwapHiddenBlocks<T>(arr: seq<T>, p: T -> bool, b: Blocks, i: int, j: int)
    requires 0 <= i < |arr| && 0 <= j < |arr|
    requires !(b.lbs <= i < b.lbe) && !(b.lbs <= j < b.lbe) && !(b.rbe < i <= b.rbs) && !(b.rbe < j <= b.rbs)
    ensures PendingBlocks(Swap(arr, i, j), p, b) == PendingBlocks(arr, p, b)
  {
    CountTrueSame(arr, Swap(arr, i, j), p, b.lbs, b.lbe);
    CountTrueSame(arr, Swap(arr, i, j), p, b.rbe + 1, b.rbs + 1);
  }

  /** Task t exchanges elements i and j of its own; its ownership and its account stay as they were. */
  ghost predicate Exchanges<T>(s: State<T>, p: T -> bool, t: nat, i: int, j: int, task: Task) {
    && t < |s.tasks| && 0 <= i < |s.arr| && 0 <= j < |s.arr|
    && OwnsLeft(s.tasks[t], i) && OwnsRight(s.tasks[t], j) && !p(s.arr[i]) && p(s.arr[j])
    && (forall k :: OwnsLeft(task, k) <==> OwnsLeft(s.tasks[t], k))
    && (forall k :: OwnsRight(task, k) <==> OwnsRight(s.tasks[t], k))
    && Pending(Swap(s.arr, i, j), p, task) == Pending(s.arr, p, s.tasks[t])
    && TaskOk(Swap(s.arr, i, j), s.size, p, task)
    && InFlight(task) == InFlight(s.tasks[t]) && Token(task) == Token(s.tasks[t])
    && Denied(task) == Denied(s.tasks[t]) && AtClaim(task) == AtClaim(s.tasks[t])
    && !s.tasks[t].Waiting? && !s.tasks[t].Joined? && !task.Waiting? && !task.Joined?
  }

  function Exchange<T>(s: State<T>, t: nat, i: int, j: int, task: Task): State<T>
    requires t < |s.tasks| && 0 <= i < |s.arr| && 0 <= j < |s.arr|
  {
    SetTask(s, t, task).(arr := Swap(s.arr, i, j))
  }

  lemma ExchangeKeepsOwned<T>(s: State<T>, p: T -> bool, t: nat, i: int, j: int, task: Task)
    requires Claims(s) && Owned(s) && Cleared(s, p) && Exchanges(s, p, t, i, j, task)
    ensures Owned(Exchange(s, t, i, j, task)) && Cleared(Exchange(s, t, i, j, task), p)
  {
    var s' := Exchange(s, t, i, j, task);
    assert forall u, k {:trigger OwnsLeft(s'.tasks[u], k)} :: 0 <= u < |s.tasks| ==> OwnsLeft(s'.tasks[u], k) == OwnsLeft(s.tasks[u], k);
    assert forall u, k {:trigger OwnsRight(s'.tasks[u], k)} :: 0 <= u < |s.tasks| ==> OwnsRight(s'.tasks[u], k) == OwnsRight(s.tasks[u], k);
    forall k | 0 <= k < s.lmove && !p(s'.arr[k])
      ensures SomeOwnsLeft(s'.tasks, k)
    {
      assert !p(s.arr[k]);
      var u :| 0 <= u < |s.tasks| && OwnsLeft(s.tasks[u], k);
      assert OwnsLeft(s'.tasks[u], k);
    }
    forall k | s.rmove <= k < |s.arr| && p(s'.arr[k])
      ensures SomeOwnsRight(s'.tasks, k)
    {
      assert p(s.arr[k]);
      var u :| 0 <= u < |s.tasks| && OwnsRight(s.tasks[u], k);
      assert OwnsRight(s'.tasks[u], k);
    }
  }

  lemma ExchangeKeepsOthers<T>(s: State<T>, p: T -> bool, t: nat, i: int, j: int, task: Task, u: nat)
    requires Claims(s) && Owned(s) && TasksOk(s, p) && Exchanges(s, p, t, i, j, task)
    requires u < |s.tasks| && u != t
    ensures TaskOk(Swap(s.arr, i, j), s.size, p, s.tasks[u])
    ensures Pending(Swap(s.arr, i, j), p, s.tasks[u]) == Pending(s.arr, p, s.tasks[u])
  {
    assert TaskOk(s.arr, s.size, p, s.tasks[u]);
    SwapHidden(s.arr, p, s.size, s.tasks[u], i, j);
  }

  lemma ExchangeKeepsCounted<T>(s: State<T>, p: T -> bool, t: nat, i: int, j: int, task: Task)
    requires Claims(s) && Owned(s) && TasksOk(s, p) && Counted(s, p) && Exchanges(s, p, t, i, j, task)
    ensures Counted(Exchange(s, t, i, j, task), p)
  {
    var arr' := Swap(s.arr, i, j);
    var bare := s.tasks[t := Ready];
    SumUpdate(s.tasks, PendingIn(s.arr, p), t, Ready);
    forall u | 0 <= u < |bare|
      ensures PendingIn(s.arr, p)(bare[u]) == PendingIn(arr', p)(bare[u])
    {
      if u != t { ExchangeKeepsOthers(s, p, t, i, j, task, u); }
    }
    SumSame(bare, PendingIn(s.arr, p), PendingIn(arr', p));
    SumUpdate(bare, PendingIn(arr', p), t, task);
    assert bare[t := task] == s.tasks[t := task];
    CountTrueSwap(s.arr, p, 0, s.lmove, i, j);
    CountTrueSwap(s.arr, p, s.rmove, |s.arr|, i, j);
  }

  lemma ExchangeKeeps<T>(s: State<T>, p: T -> bool, threads: int, t: nat, i: int, j: int, task: Task)
    requires Inv(s, p, threads) && Exchanges(s, p, t, i, j, task)
    ensures Inv(Exchange(s, t, i, j, task), p, threads)
  {
    var s' := Exchange(s, t, i, j, task);
    ExchangeKeepsOwned(s, p, t, i, j, task);
    ExchangeKeepsCounted(s, p, t, i, j, task);
    SimpleKeepsTree(s.tasks, t, task);
    AccountsKeepThreads(s, s', threads, t, task);
    AccountsKeepSizes(s, s', threads, t, task);
    assert Claims(s') by {
      SumUpdate(s.tasks, InFlight, t, task);
    }
    forall u | 0 <= u < |s.tasks|
      ensures TaskOk(s'.arr, s'.size, p, s'.tasks[u])
    {
      if u != t { ExchangeKeepsOthers(s, p, t, i, j, task, u); }
    }
  }

  // ----- Scanning -----

  lemma ScanSwapKeeps<T>(s: State<T>, p: T -> bool, threads: int, t: nat, b: Blocks)
    requires Inv(s, p, threads) && t < |s.tasks| && s.tasks[t] == Scanning(b, Compare) && Safe(s, t)
    requires b.lbs != b.lbe && b.rbs != b.rbe
    ensures Inv(Scan(s, p, t, b, Compare), p, threads)
  {
    hide Cleared, Counted, Threads, Sizes, Tree, SumOver;
    assert TaskOk(s.arr, s.size, p, s.tasks[t]);
    assert OwnsLeft(s.tasks[t], b.lbs) && OwnsRight(s.tasks[t], b.rbs);
    assert b.lbe <= b.rbe + 1 by {
      assert OwnsLeft(s.tasks[t], b.lbe - 1) && OwnsRight(s.tasks[t], b.rbe + 1);
    }
    CountTrueSwap(s.arr, p, b.lbs, b.lbe, b.lbs, b.rbs);
    CountTrueSwap(s.arr, p, b.rbe + 1, b.rbs + 1, b.lbs, b.rbs);
    ExchangeKeeps(s, p, threads, t, b.lbs, b.rbs, Scanning(b, ScanLeft));
  }

  /** A true element at the front of the left block is passed over and counted. */
  lemma PassTrueKeeps<T>(s: State<T>, p: T -> bool, threads: int, t: nat, b: Blocks)
    requires Inv(s, p, threads) && t < |s.tasks| && s.tasks[t] == Scanning(b, ScanLeft) && Safe(s, t)
    requires b.lbs != b.lbe && p(s.arr[b.lbs])
    ensures Inv(Scan(s, p, t, b, ScanLeft), p, threads)
  {
    hide Cleared, Counted, Threads, Sizes, Tree, SumOver;
    var s' := Scan(s, p, t, b, ScanLeft);
    assert TaskOk(s.arr, s.size, p, s.tasks[t]);
    assert OwnsLeft(s.tasks[t], b.lbe - 1);
    CountTrueHead(s.arr, p, b.lbs, b.lbe);
    LocalStep(s, s', p, threads, t, s'.tasks[t]);
  }

  lemma StopLeftKeeps<T>(s: State<T>, p: T -> bool, threads: int, t: nat, b: Blocks)
    requires Inv(s, p, threads) && t < |s.tasks| && s.tasks[t] == Scanning(b, ScanLeft) && Safe(s, t)
    requires b.lbs == b.lbe || !p(s.arr[b.lbs])
    ensures Inv(Scan(s, p, t, b, ScanLeft), p, threads)
  {
    hide Cleared, Counted, Threads, Sizes, Tree, SumOver, CountTrue;
    var s' := Scan(s, p, t, b, ScanLeft);
    assert TaskOk(s.arr, s.size, p, s.tasks[t]);
    LocalStep(s, s', p, threads, t, s'.tasks[t]);
  }

  lemma ScanRightKeeps<T>(s: State<T>, p: T -> bool, threads: int, t: nat, b: Blocks)
    requires Inv(s, p, threads) && t < |s.tasks| && s.tasks[t] == Scanning(b, ScanRight) && Safe(s, t)
    ensures Inv(Scan(s, p, t, b, ScanRight), p, threads)
  {
    hide Cleared, Counted, Threads, Sizes, Tree, SumOver;
    var s' := Scan(s, p, t, b, ScanRight);
    assert TaskOk(s.arr, s.size, p, s.tasks[t]);
    LocalStep(s, s', p, threads, t, s'.tasks[t]);
  }

  lemma ScanStopKeeps<T>(s: State<T>, p: T -> bool, threads: int, t: nat, b: Blocks)
    requires Inv(s, p, threads) && t < |s.tasks| && s.tasks[t] == Scanning(b, Compare) && Safe(s, t)
    requires b.lbs == b.lbe || b.rbs == b.rbe
    ensures Inv(Scan(s, p, t, b, Compare), p, threads)
  {
    assert TaskOk(s.arr, s.size, p, s.tasks[t]);
    LocalStep(s, SetTask(s, t, Testing(b)), p, threads, t, Testing(b));
  }

  lemma ScanKeeps<T>(s: State<T>, p: T -> bool, threads: int, t: nat, b: Blocks, phase: Phase)
    requires Inv(s, p, threads) && t < |s.tasks| && s.tasks[t] == Scanning(b, phase) && Safe(s, t)
    ensures Inv(Scan(s, p, t, b, phase), p, threads)
  {
    match phase
    case ScanLeft =>
      if b.lbs != b.lbe && p(s.arr[b.lbs]) {
        PassTrueKeeps(s, p, threads, t, b);
      } else {
        StopLeftKeeps(s, p, threads, t, b);
      }
    case ScanRight => ScanRightKeeps(s, p, threads, t, b);
    case Compare =>
      if b.lbs == b.lbe || b.rbs == b.rbe {
        ScanStopKeeps(s, p, threads, t, b);
      } else {
        ScanSwapKeeps(s, p, threads, t, b);
      }
  }

  lemma InRestsOne(lo: int, hi: int, i: int)
    ensures InRests([Interval(lo, hi)], i) <==> lo <= i < hi
  {
  }

  lemma CountKeeps<T>(s: State<T>, p: T -> bool, threads: int, t: nat, b: Blocks)
    requires Inv(s, p, threads) && t < |s.tasks| && s.tasks[t] == Counting(b)
    ensures Inv(Count(s, p, t, b), p, threads)
  {
    var s' := Count(s, p, t, b);
    assert TaskOk(s.arr, s.size, p, s.tasks[t]);
    forall i
      ensures OwnsLeft(s'.tasks[t], i) <==> OwnsLeft(s.tasks[t], i)
      ensures OwnsRight(s'.tasks[t], i) <==> OwnsRight(s.tasks[t], i)
    {
      InRestsOne(b.lbs, b.lbe, i);
      InRestsOne(b.rbe + 1, b.rbs + 1, i);
    }
    LocalStep(s, s', p, threads, t, s'.tasks[t]);
  }

  lemma PublishKeeps<T>(s: State<T>, p: T -> bool, threads: int, t: nat, found: int, l: seq<Interval>, r: seq<Interval>)
    requires Inv(s, p, threads) && t < |s.tasks| && s.tasks[t] == Publishing(found, l, r)
    ensures Inv(SetTask(s, t, Done(l, r)).(rtrue := s.rtrue + found), p, threads)
  {
    assert TaskOk(s.arr, s.size, p, s.tasks[t]);
    LocalStep(s, SetTask(s, t, Done(l, r)).(rtrue := s.rtrue + found), p, threads, t, Done(l, r));
  }

  // ----- Merging the rests of two subtasks -----

  lemma MergeSwapKeeps<T>(s: State<T>, p: T -> bool, threads: int, t: nat, r: Rests)
    requires Inv(s, p, threads) && t < |s.tasks| && s.tasks[t] == Merging(r, Compare) && Safe(s, t)
    requires r.lbs != r.lbe && r.rbs != r.rbe
    ensures Inv(Merge(s, p, t, r, Compare), p, threads)
  {
    assert TaskOk(s.arr, s.size, p, s.tasks[t]);
    assert OwnsLeft(s.tasks[t], r.lbs) && OwnsRight(s.tasks[t], r.rbs);
    ExchangeKeeps(s, p, threads, t, r.lbs, r.rbs, Merging(r, ScanLeft));
  }

  lemma MergeLeftKeeps<T>(s: State<T>, p: T -> bool, threads: int, t: nat, r: Rests)
    requires Inv(s, p, threads) && t < |s.tasks| && Safe(s, t)
    requires s.tasks[t] == Merging(r, ScanLeft)
    ensures Inv(Merge(s, p, t, r, s.tasks[t].phase), p, threads)
  {
    hide Cleared, Counted, Threads, Sizes, Tree, SumOver, CountTrue;
    var s' := Merge(s, p, t, r, s.tasks[t].phase);
    assert TaskOk(s.arr, s.size, p, s.tasks[t]);
    LocalStep(s, s', p, threads, t, s'.tasks[t]);
  }

  lemma MergeRightKeeps<T>(s: State<T>, p: T -> bool, threads: int, t: nat, r: Rests)
    requires Inv(s, p, threads) && t < |s.tasks| && Safe(s, t)
    requires s.tasks[t] == Merging(r, ScanRight)
    ensures Inv(Merge(s, p, t, r, s.tasks[t].phase), p, threads)
  {
    hide Cleared, Counted, Threads, Sizes, Tree, SumOver, CountTrue;
    var s' := Merge(s, p, t, r, s.tasks[t].phase);
    assert TaskOk(s.arr, s.size, p, s.tasks[t]);
    LocalStep(s, s', p, threads, t, s'.tasks[t]);
  }

  lemma MergeEndKeeps<T>(s: State<T>, p: T -> bool, threads: int, t: nat, r: Rests)
    requires Inv(s, p, threads) && t < |s.tasks| && Safe(s, t)
    requires s.tasks[t] == Merging(r, Compare) && (r.lbs == r.lbe || r.rbs == r.rbe)
    ensures Inv(Merge(s, p, t, r, s.tasks[t].phase), p, threads)
  {
    hide Cleared, Counted, Threads, Sizes, Tree, SumOver, CountTrue;
    var s' := Merge(s, p, t, r, s.tasks[t].phase);
    assert TaskOk(s.arr, s.size, p, s.tasks[t]);
    LocalStep(s, s', p, threads, t, s'.tasks[t]);
  }

  lemma MergeKeeps<T>(s: State<T>, p: T -> bool, threads: int, t: nat, r: Rests, phase: Phase)
    requires Inv(s, p, threads) && t < |s.tasks| && s.tasks[t] == Merging(r, phase) && Safe(s, t)
    ensures Inv(Merge(s, p, t, r, phase), p, threads)
  {
    match phase
    case ScanLeft => MergeLeftKeeps(s, p, threads, t, r);
    case ScanRight => MergeRightKeeps(s, p, threads, t, r);
    case Compare =>
      if r.lbs != r.lbe && r.rbs != r.rbe {
        MergeSwapKeeps(s, p, threads, t, r);
      } else {
        MergeEndKeeps(s, p, threads, t, r);
      }
  }

  lemma PairKeeps<T>(s: State<T>, p: T -> bool, threads: int, t: nat, r: Rests)
    requires Inv(s, p, threads) && t < |s.tasks| && s.tasks[t] == Pairing(r)
    ensures Inv(Pair(s, t, r), p, threads)
  {
    var s' := Pair(s, t, r);
    assert TaskOk(s.arr, s.size, p, s.tasks[t]);
    PairKeepsOwnership(s, t, r);
    LocalStep(s, s', p, threads, t, s'.tasks[t]);
  }

  lemma PairKeepsOwnership<T>(s: State<T>, t: nat, r: Rests)
    requires t < |s.tasks| && s.tasks[t] == Pairing(r) && r.lbs <= r.lbe && r.rbs <= r.rbe
    ensures forall i :: OwnsLeft(Pair(s, t, r).tasks[t], i) <==> OwnsLeft(s.tasks[t], i)
    ensures forall i :: OwnsRight(Pair(s, t, r).tasks[t], i) <==> OwnsRight(s.tasks[t], i)
  {
    var task := Pair(s, t, r).tasks[t];
    forall i
      ensures OwnsLeft(task, i) <==> OwnsLeft(s.tasks[t], i)
      ensures OwnsRight(task, i) <==> OwnsRight(s.tasks[t], i)
    {
      InRestsConcat(r.lRest, [Interval(r.lbs, r.lbe)], i);
      InRestsConcat(r.rRest, [Interval(r.rbs, r.rbe)], i);
      assert r.lRest + [] == r.lRest && r.rRest + [] == r.rRest;
    }
  }

  // ----- Collecting two subtasks -----

  ghost predicate CanJoin(tasks: seq<Task>, t: nat, c1: nat, c2: nat) {
    && t < |tasks| && c1 < |tasks| && c2 < |tasks|
    && tasks[t] == Waiting(c1, c2) && tasks[c1].Done? && tasks[c2].Done? && c1 != c2
  }

  function Joining(tasks: seq<Task>, t: nat, c1: nat, c2: nat, parent: Task): seq<Task>
    requires t < |tasks| && c1 < |tasks| && c2 < |tasks|
  {
    tasks[t := parent][c1 := Joined][c2 := Joined]
  }

  lemma SumJoin(tasks: seq<Task>, f: Task -> int, t: nat, c1: nat, c2: nat, parent: Task)
    requires CanJoin(tasks, t, c1, c2)
    ensures SumOver(Joining(tasks, t, c1, c2, parent), f)
            == SumOver(tasks, f) - f(tasks[t]) - f(tasks[c1]) - f(tasks[c2]) + f(parent) + 2 * f(Joined)
  {
    SumUpdate(tasks, f, t, parent);
    SumUpdate(tasks[t := parent], f, c1, Joined);
    SumUpdate(tasks[t := parent][c1 := Joined], f, c2, Joined);
  }

  lemma JoinKeepsTree(tasks: seq<Task>, t: nat, c1: nat, c2: nat, parent: Task)
    requires Tree(tasks) && CanJoin(tasks, t, c1, c2) && parent.Pairing?
    ensures Tree(Joining(tasks, t, c1, c2, parent))
  {
    var after := Joining(tasks, t, c1, c2, parent);
    assert IsChild(tasks[t], c1) && IsChild(tasks[t], c2);
    forall u: nat, c: nat {:trigger IsChild(after[u], c)} | u < |after| && IsChild(after[u], c)
      ensures u != t && IsChild(tasks[u], c) && c != c1 && c != c2 && !after[c].Joined?
    {
      assert IsChild(tasks[u], c);
    }
    JoinKeepsParents(tasks, t, c1, c2, parent);
  }

  lemma JoinKeepsParents(tasks: seq<Task>, t: nat, c1: nat, c2: nat, parent: Task)
    requires Parented(tasks) && CanJoin(tasks, t, c1, c2) && parent.Pairing?
    ensures Parented(Joining(tasks, t, c1, c2, parent))
  {
    var after := Joining(tasks, t, c1, c2, parent);
    forall u: nat | 0 < u < |after| && !after[u].Joined?
      ensures HasParent(after, u)
    {
      assert HasParent(tasks, u);
      var q: nat :| q < |tasks| && q < u && IsChild(tasks[q], u);
      assert IsChild(after[q], u);
    }
  }

  /** What one task owns after a join. */
  lemma JoinOwners<T>(s: State<T>, t: nat, c1: nat, c2: nat, u: nat, i: int)
    requires CanJoin(s.tasks, t, c1, c2) && u < |s.tasks|
    ensures OwnsLeft(Join(s, t, c1, c2).tasks[u], i) <==>
            if u == t then OwnsLeft(s.tasks[c1], i) || OwnsLeft(s.tasks[c2], i)
            else u != c1 && u != c2 && OwnsLeft(s.tasks[u], i)
    ensures OwnsRight(Join(s, t, c1, c2).tasks[u], i) <==>
            if u == t then OwnsRight(s.tasks[c1], i) || OwnsRight(s.tasks[c2], i)
            else u != c1 && u != c2 && OwnsRight(s.tasks[u], i)
  {
    hide InRests;
    if u == t {
      InRestsConcat(s.tasks[c1].lDone, s.tasks[c2].lDone, i);
      InRestsConcat(s.tasks[c1].rDone, s.tasks[c2].rDone, i);
    }
  }

  lemma JoinKeepsOwned<T>(s: State<T>, t: nat, c1: nat, c2: nat)
    requires Owned(s) && CanJoin(s.tasks, t, c1, c2)
    ensures Owned(Join(s, t, c1, c2))
  {
    hide OwnsLeft, OwnsRight;
    var s' := Join(s, t, c1, c2);
    forall u: nat, i {:trigger OwnsLeft(s'.tasks[u], i)} {:trigger OwnsRight(s'.tasks[u], i)} | u < |s.tasks|
      ensures OwnsLeft(s'.tasks[u], i) <==>
              if u == t then OwnsLeft(s.tasks[c1], i) || OwnsLeft(s.tasks[c2], i)
              else u != c1 && u != c2 && OwnsLeft(s.tasks[u], i)
      ensures OwnsRight(s'.tasks[u], i) <==>
              if u == t then OwnsRight(s.tasks[c1], i) || OwnsRight(s.tasks[c2], i)
              else u != c1 && u != c2 && OwnsRight(s.tasks[u], i)
    {
      JoinOwners(s, t, c1, c2, u, i);
    }
    assert forall i :: !OwnsLeft(s.tasks[t], i) && !OwnsRight(s.tasks[t], i) by {
      WaitingOwnsNothing(s.tasks[t]);
    }
  }

  lemma WaitingOwnsNothing(task: Task)
    requires task.Waiting?
    ensures forall i :: !OwnsLeft(task, i) && !OwnsRight(task, i)
  {
  }

  lemma JoinKeepsCleared<T>(s: State<T>, p: T -> bool, t: nat, c1: nat, c2: nat)
    requires 0 <= s.lmove <= s.rmove <= |s.arr| && Cleared(s, p) && CanJoin(s.tasks, t, c1, c2)
    ensures Cleared(Join(s, t, c1, c2), p)
  {
    hide OwnsLeft, OwnsRight;
    var s' := Join(s, t, c1, c2);
    WaitingOwnsNothing(s.tasks[t]);
    forall i | 0 <= i < s.lmove && !p(s.arr[i])
      ensures SomeOwnsLeft(s'.tasks, i)
    {
      var u :| 0 <= u < |s.tasks| && OwnsLeft(s.tasks[u], i);
      var v := if u == c1 || u == c2 then t else u;
      JoinOwners(s, t, c1, c2, v, i);
      assert OwnsLeft(s'.tasks[v], i);
    }
    forall i | s.rmove <= i < |s.arr| && p(s.arr[i])
      ensures SomeOwnsRight(s'.tasks, i)
    {
      var u :| 0 <= u < |s.tasks| && OwnsRight(s.tasks[u], i);
      var v := if u == c1 || u == c2 then t else u;
      JoinOwners(s, t, c1, c2, v, i);
      assert OwnsRight(s'.tasks[v], i);
    }
  }

  lemma JoinKeepsCounts<T>(s: State<T>, p: T -> bool, t: nat, c1: nat, c2: nat)
    requires Claims(s) && Counted(s, p) && CanJoin(s.tasks, t, c1, c2)
    ensures Claims(Join(s, t, c1, c2)) && Counted(Join(s, t, c1, c2), p)
  {
    hide SumOver, CountTrue, PendingBlocks;
    var parent := Join(s, t, c1, c2).tasks[t];
    SumJoin(s.tasks, InFlight, t, c1, c2, parent);
    SumJoin(s.tasks, PendingIn(s.arr, p), t, c1, c2, parent);
  }

  lemma JoinKeepsThreads<T>(s: State<T>, threads: int, t: nat, c1: nat, c2: nat)
    requires Threads(s, threads) && CanJoin(s.tasks, t, c1, c2)
    ensures Threads(Join(s, t, c1, c2), threads)
  {
    hide SumOver;
    var parent := Join(s, t, c1, c2).tasks[t];
    SumJoin(s.tasks, Token, t, c1, c2, parent);
    SumJoin(s.tasks, Denied, t, c1, c2, parent);
    SumJoin(s.tasks, Workers, t, c1, c2, parent);
  }

  lemma JoinKeepsSizes<T>(s: State<T>, threads: int, t: nat, c1: nat, c2: nat)
    requires s.blockSize > 0 && Sizes(s, threads) && CanJoin(s.tasks, t, c1, c2)
    ensures Sizes(Join(s, t, c1, c2), threads)
  {
    hide SumOver;
    SumJoin(s.tasks, AtClaim, t, c1, c2, Join(s, t, c1, c2).tasks[t]);
  }

  lemma JoinKeeps<T>(s: State<T>, p: T -> bool, threads: int, t: nat)
    requires Inv(s, p, threads) && Enabled(s, t) && s.tasks[t].Waiting?
    ensures Inv(Join(s, t, s.tasks[t].left, s.tasks[t].right), p, threads)
  {
    hide Owned, Cleared, Counted, Threads, Sizes;
    var c1, c2 := s.tasks[t].left, s.tasks[t].right;
    var s' := Join(s, t, c1, c2);
    assert CanJoin(s.tasks, t, c1, c2);
    JoinKeepsTree(s.tasks, t, c1, c2, s'.tasks[t]);
    JoinKeepsOwned(s, t, c1, c2);
    JoinKeepsCleared(s, p, t, c1, c2);
    JoinKeepsCounts(s, p, t, c1, c2);
    JoinKeepsThreads(s, threads, t, c1, c2);
    JoinKeepsSizes(s, threads, t, c1, c2);
    assert TasksOk(s', p) by {
      assert TaskOk(s.arr, s.size, p, s.tasks[c1]) && TaskOk(s.arr, s.size, p, s.tasks[c2]);
      assert forall u :: 0 <= u < |s.tasks| ==> TaskOk(s.arr, s.size, p, s.tasks[u]);
    }
  }

  // ----- Main result -----

  predicate Working(task: Task) {
    task.Testing? || task.Claiming? || task.Placing? || task.Scanning? || task.Counting? || task.Publishing?
  }

  lemma WorkerStepKeeps<T>(s: State<T>, p: T -> bool, threads: int, t: nat)
    requires Inv(s, p, threads) && Enabled(s, t) && Safe(s, t) && Exact(s, t) && Working(s.tasks[t])
    ensures Inv(Step(s, p, t), p, threads)
  {
    match s.tasks[t]
    case Testing(b) => TestKeeps(s, p, threads, t, b);
    case Claiming(b) => ClaimKeeps(s, p, threads, t, b);
    case Placing(b, mySize) => PlaceKeeps(s, p, threads, t, b, mySize);
    case Scanning(b, phase) => ScanKeeps(s, p, threads, t, b, phase);
    case Counting(b) => CountKeeps(s, p, threads, t, b);
    case Publishing(found, l, r) => PublishKeeps(s, p, threads, t, found, l, r);
  }

  lemma OtherStepKeeps<T>(s: State<T>, p: T -> bool, threads: int, t: nat)
    requires Inv(s, p, threads) && Enabled(s, t) && Safe(s, t) && !Working(s.tasks[t])
    ensures Inv(Step(s, p, t), p, threads)
  {
    hide Inv;
    match s.tasks[t]
    case Ready => EnterKeeps(s, p, threads, t);
    case Entered(threadsLeft) => DecideKeeps(s, p, threads, t, threadsLeft);
    case Leaving(_) => LeaveKeeps(s, p, threads, t);
    case Waiting(_, _) => JoinKeeps(s, p, threads, t);
    case Pairing(r) => PairKeeps(s, p, threads, t, r);
    case Merging(r, phase) => MergeKeeps(s, p, threads, t, r, phase);
  }

  /**
    Whichever task runs next, it touches only elements inside the range, and the invariant holds again
    unless a conversion to int has lost something.
   */
  lemma StepKeeps<T>(s: State<T>, p: T -> bool, threads: int, t: nat)
    requires Inv(s, p, threads) && Enabled(s, t) && Exact(s, t)
    ensures Safe(s, t) && Inv(Step(s, p, t), p, threads)
    ensures |Step(s, p, t).arr| == |s.arr| && Step(s, p, t).blockSize == s.blockSize
  {
    hide Inv;
    Safety(s, p, threads, t);
    if Working(s.tasks[t]) {
      WorkerStepKeeps(s, p, threads, t);
    } else {
      OtherStepKeeps(s, p, threads, t);
    }
  }
}

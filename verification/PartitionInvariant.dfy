/** What every reachable state of the partition protocol satisfies. */
module PartitionInvariant {
  import opened Tally
  import opened PartitionProtocol

  /** Position i lies in one of the intervals. */
  predicate InRests(rests: seq<Interval>, i: int) {
    rests != [] && (rests[0].lo <= i < rests[0].hi || InRests(rests[1..], i))
  }

  lemma {:induction false} InRestsConcat(a: seq<Interval>, b: seq<Interval>, i: int)
    ensures InRests(a + b, i) <==> InRests(a, i) || InRests(b, i)
  {
    if a == [] {
      assert a + b == b;
    } else {
      assert (a + b)[1..] == a[1..] + b;
      InRestsConcat(a[1..], b, i);
    }
  }

  /** Position i is still to be dealt with on the left side by this task. */
  predicate OwnsLeft(task: Task, i: int) {
    match task
    case Testing(b) => b.lbs <= i < b.lbe
    case Claiming(b) => b.lbs <= i < b.lbe
    case Placing(b, _) => b.lbs <= i < b.lbe
    case Scanning(b, _) => b.lbs <= i < b.lbe
    case Counting(b) => b.lbs <= i < b.lbe
    case Publishing(_, l, _) => InRests(l, i)
    case Done(l, _) => InRests(l, i)
    case Pairing(r) => r.lbs <= i < r.lbe || InRests(r.lRest, i)
    case Merging(r, _) => r.lbs <= i < r.lbe || InRests(r.lRest, i)
    case _ => false
  }

  /** Position i is still to be dealt with on the right side by this task. */
  predicate OwnsRight(task: Task, i: int) {
    match task
    case Testing(b) => b.rbe < i <= b.rbs
    case Claiming(b) => b.rbe < i <= b.rbs
    case Placing(b, _) => b.rbe < i <= b.rbs
    case Scanning(b, _) => b.rbe < i <= b.rbs
    case Counting(b) => b.rbe < i <= b.rbs
    case Publishing(_, _, r) => InRests(r, i)
    case Done(_, r) => InRests(r, i)
    case Pairing(r) => r.rbs <= i < r.rbe || InRests(r.rRest, i)
    case Merging(r, _) => r.rbs <= i < r.rbe || InRests(r.rRest, i)
    case _ => false
  }

  ghost predicate SomeOwnsLeft(tasks: seq<Task>, i: int) {
    exists t {:trigger OwnsLeft(tasks[t], i)} :: 0 <= t < |tasks| && OwnsLeft(tasks[t], i)
  }

  ghost predicate SomeOwnsRight(tasks: seq<Task>, i: int) {
    exists t {:trigger OwnsRight(tasks[t], i)} :: 0 <= t < |tasks| && OwnsRight(tasks[t], i)
  }

  /** Elements claimed from m_size but not yet taken from either end. */
  function InFlight(task: Task): int {
    if task.Placing? then task.mySize else 0
  }

  /** True elements of a worker's blocks that m_rtrue does not include yet. */
  function Pending<T>(arr: seq<T>, p: T -> bool, task: Task): int {
    match task
    case Testing(b) => PendingBlocks(arr, p, b)
    case Claiming(b) => PendingBlocks(arr, p, b)
    case Placing(b, _) => PendingBlocks(arr, p, b)
    case Scanning(b, _) => PendingBlocks(arr, p, b)
    case Counting(b) => PendingBlocks(arr, p, b)
    case Publishing(found, _, _) => found
    case _ => 0
  }

  function PendingBlocks<T>(arr: seq<T>, p: T -> bool, b: Blocks): int {
    b.found + CountTrue(arr, p, b.lbs, b.lbe) + CountTrue(arr, p, b.rbe + 1, b.rbs + 1)
  }

  function PendingIn<T>(arr: seq<T>, p: T -> bool): Task -> int {
    task => Pending(arr, p, task)
  }

  /** The task holds a token of m_open_threads. */
  function Token(task: Task): int {
    if task.Entered? || task.Leaving? then 1 else 0
  }

  /** The task holds a token although there was none left. */
  function Denied(task: Task): int {
    if (task.Entered? || task.Leaving?) && task.threadsLeft < 1 then 1 else 0
  }

  /** The task has left the claim loop for good. */
  predicate PastLoop(task: Task) {
    task.Counting? || task.Publishing? || task.Done? || task.Joined? || task.Pairing? || task.Merging?
  }

  /** The task is about to take a block's worth from m_size. */
  function AtClaim(task: Task): int {
    if task.Claiming? then 1 else 0
  }

  /** Twice the number of workers among a task and the subtasks it has collected; subtasks account for those that wait. */
  function Workers(task: Task): int {
    if task.Joined? then 1 else if task.Waiting? then 0 else 2
  }

  function Positive(x: int): nat {
    if x > 0 then x else 0
  }

  ghost predicate Ordered(rests: seq<Interval>) {
    forall k :: 0 <= k < |rests| ==> rests[k].lo <= rests[k].hi
  }

  predicate BlocksOrdered(b: Blocks) {
    b.lbs <= b.lbe && b.rbe <= b.rbs
  }

  predicate OneSideEmpty(b: Blocks) {
    BlocksOrdered(b) && (b.lbs == b.lbe || b.rbs == b.rbe)
  }

  ghost predicate RestsOrdered(r: Rests) {
    r.lbs <= r.lbe && r.rbs <= r.rbe && Ordered(r.lRest) && Ordered(r.rRest)
  }

  predicate Stuck<T>(arr: seq<T>, p: T -> bool, i: int, value: bool) {
    0 <= i < |arr| ==> p(arr[i]) == value
  }

  /** The shape of a task's local variables at each preemption point. */
  ghost predicate TaskOk<T>(arr: seq<T>, size: int, p: T -> bool, task: Task) {
    && (PastLoop(task) ==> size <= 0)
    && match task
       case Testing(b) => OneSideEmpty(b)
       case Claiming(b) => OneSideEmpty(b)
       case Placing(b, mySize) => OneSideEmpty(b) && mySize > 0
       case Counting(b) => OneSideEmpty(b)
       case Scanning(b, phase) =>
         && BlocksOrdered(b)
         && (!phase.ScanLeft? ==> b.lbs == b.lbe || Stuck(arr, p, b.lbs, false))
         && (phase.Compare? ==> b.rbs == b.rbe || Stuck(arr, p, b.rbs, true))
       case Publishing(_, l, r) => Ordered(l) && Ordered(r) && (l == [] || r == [])
       case Done(l, r) => Ordered(l) && Ordered(r) && (l == [] || r == [])
       case Pairing(r) => RestsOrdered(r) && (r.lbs == r.lbe || r.rbs == r.rbe)
       case Merging(r, phase) =>
         && RestsOrdered(r)
         && (!phase.ScanLeft? ==> r.lbs == r.lbe || Stuck(arr, p, r.lbs, false))
         && (phase.Compare? ==> r.rbs == r.rbe || Stuck(arr, p, r.rbs, true))
       case _ => true
  }

  ghost predicate TasksOk<T>(s: State<T>, p: T -> bool) {
    forall t :: 0 <= t < |s.tasks| ==> TaskOk(s.arr, s.size, p, s.tasks[t])
  }

  /** The ends never cross, and every element is unclaimed, in flight, or claimed from one end. */
  ghost predicate Claims<T>(s: State<T>) {
    && 0 <= s.lmove <= s.rmove <= |s.arr|
    && s.blockSize > 0
    && s.lmove + (|s.arr| - s.rmove) + SumOver(s.tasks, InFlight) == |s.arr| - Positive(s.size)
  }

  /** Claimed positions have at most one owner, on the side they were claimed from. */
  ghost predicate Owned<T>(s: State<T>) {
    && (forall t, i :: 0 <= t < |s.tasks| && OwnsLeft(s.tasks[t], i) ==> 0 <= i < s.lmove)
    && (forall t, i :: 0 <= t < |s.tasks| && OwnsRight(s.tasks[t], i) ==> s.rmove <= i < |s.arr|)
    && (forall t, u, i {:trigger OwnsLeft(s.tasks[t], i), OwnsLeft(s.tasks[u], i)} | 0 <= t < |s.tasks| && 0 <= u < |s.tasks| ::
          OwnsLeft(s.tasks[t], i) && OwnsLeft(s.tasks[u], i) ==> t == u)
    && (forall t, u, i {:trigger OwnsRight(s.tasks[t], i), OwnsRight(s.tasks[u], i)} | 0 <= t < |s.tasks| && 0 <= u < |s.tasks| ::
          OwnsRight(s.tasks[t], i) && OwnsRight(s.tasks[u], i) ==> t == u)
  }

  /** A claimed position that nobody owns any more is settled: true on the left, false on the right. */
  ghost predicate Cleared<T>(s: State<T>, p: T -> bool)
    requires 0 <= s.lmove <= s.rmove <= |s.arr|
  {
    && (forall i :: 0 <= i < s.lmove && !p(s.arr[i]) ==> SomeOwnsLeft(s.tasks, i))
    && (forall i :: s.rmove <= i < |s.arr| && p(s.arr[i]) ==> SomeOwnsRight(s.tasks, i))
  }

  /** m_rtrue and what workers have not published add up to the true elements claimed so far. */
  ghost predicate Counted<T>(s: State<T>, p: T -> bool) {
    s.rtrue + SumOver(s.tasks, PendingIn(s.arr, p))
      == CountTrue(s.arr, p, 0, s.lmove) + CountTrue(s.arr, p, s.rmove, |s.arr|)
  }

  /** Each split uses up a token for good, so there are at most threads + 1 workers. */
  ghost predicate Threads<T>(s: State<T>, threads: int) {
    && s.open + SumOver(s.tasks, Denied) >= 0
    && |s.tasks| + 2 * (s.open + SumOver(s.tasks, Token)) == 1 + 2 * threads
    && SumOver(s.tasks, Workers) == |s.tasks| + 1
  }

  /** What the last block has left when n elements are cut into blocks. */
  function LastBlock(n: int, blockSize: int): int
    requires blockSize > 0
    decreases n
  {
    if n <= blockSize then n else LastBlock(n - blockSize, blockSize)
  }

  /**
    m_size goes down in whole blocks. Below zero, every worker that has passed the test but not yet claimed
    will take one more block's worth, but the one that made the last real claim is not among them.
   */
  ghost predicate Sizes<T>(s: State<T>, threads: int)
    requires s.blockSize > 0
  {
    && s.size <= |s.arr|
    && (s.size > 0 ==> LastBlock(s.size, s.blockSize) == LastBlock(|s.arr|, s.blockSize))
    && (s.size <= 0 ==> s.size - s.blockSize * SumOver(s.tasks, AtClaim)
                        >= LastBlock(|s.arr|, s.blockSize) - s.blockSize - s.blockSize * threads)
  }

  predicate IsChild(task: Task, u: nat) {
    task.Waiting? && (task.left == u || task.right == u)
  }

  ghost predicate HasParent(tasks: seq<Task>, u: nat) {
    exists t: nat {:trigger IsChild(tasks[t], u)} :: t < |tasks| && t < u && IsChild(tasks[t], u)
  }

  /** Subtasks are younger than their parent and their results are still to be collected. */
  ghost predicate ChildrenLive(tasks: seq<Task>) {
    forall t: nat, c: nat {:trigger IsChild(tasks[t], c)} :: t < |tasks| && IsChild(tasks[t], c) ==> t < c < |tasks| && !tasks[c].Joined?
  }

  ghost predicate ChildrenUnique(tasks: seq<Task>) {
    && (forall t: nat, u: nat, c: nat {:trigger IsChild(tasks[t], c), IsChild(tasks[u], c)} :: t < |tasks| && u < |tasks| && IsChild(tasks[t], c) && IsChild(tasks[u], c) ==> t == u)
    && (forall t: nat :: t < |tasks| && tasks[t].Waiting? ==> tasks[t].left != tasks[t].right)
  }

  ghost predicate Parented(tasks: seq<Task>) {
    forall u: nat {:trigger HasParent(tasks, u)} :: 0 < u < |tasks| && !tasks[u].Joined? ==> HasParent(tasks, u)
  }

  /** The tasks form a tree rooted at task 0. */
  ghost predicate Tree(tasks: seq<Task>) {
    |tasks| > 0 && !tasks[0].Joined? && ChildrenLive(tasks) && ChildrenUnique(tasks) && Parented(tasks)
  }

  ghost predicate Inv<T>(s: State<T>, p: T -> bool, threads: int) {
    Claims(s) && TasksOk(s, p) && Owned(s) && Cleared(s, p) && Counted(s, p) && Threads(s, threads) && Sizes(s, threads) && Tree(s.tasks)
  }

  // ----- Ownership -----

  /** A task gives up only settled positions. */
  ghost predicate Shrinks<T>(arr: seq<T>, p: T -> bool, before: Task, after: Task) {
    && (forall i :: OwnsLeft(after, i) ==> OwnsLeft(before, i))
    && (forall i :: OwnsRight(after, i) ==> OwnsRight(before, i))
    && (forall i :: 0 <= i < |arr| && OwnsLeft(before, i) && !OwnsLeft(after, i) ==> p(arr[i]))
    && (forall i :: 0 <= i < |arr| && OwnsRight(before, i) && !OwnsRight(after, i) ==> !p(arr[i]))
  }

  lemma ShrinkKeepsOwned<T>(s: State<T>, s': State<T>, p: T -> bool, t: nat, task: Task)
    requires 0 <= s.lmove <= s.rmove <= |s.arr| && Owned(s) && Cleared(s, p)
    requires t < |s.tasks| && Shrinks(s.arr, p, s.tasks[t], task)
    requires s'.tasks == s.tasks[t := task] && s'.arr == s.arr && s'.lmove == s.lmove && s'.rmove == s.rmove
    ensures Owned(s') && Cleared(s', p)
  {
    forall i | 0 <= i < s.lmove && !p(s.arr[i])
      ensures SomeOwnsLeft(s'.tasks, i)
    {
      var u :| 0 <= u < |s.tasks| && OwnsLeft(s.tasks[u], i);
      assert OwnsLeft(s'.tasks[u], i);
    }
    forall i | s.rmove <= i < |s.arr| && p(s.arr[i])
      ensures SomeOwnsRight(s'.tasks, i)
    {
      var u :| 0 <= u < |s.tasks| && OwnsRight(s.tasks[u], i);
      assert OwnsRight(s'.tasks[u], i);
    }
  }

  lemma SimpleKeepsTree(tasks: seq<Task>, t: nat, task: Task)
    requires Tree(tasks) && t < |tasks|
    requires !tasks[t].Waiting? && !tasks[t].Joined? && !task.Waiting? && !task.Joined?
    ensures Tree(tasks[t := task])
  {
    var after := tasks[t := task];
    assert forall u: nat, c: nat {:trigger IsChild(after[u], c)} :: u < |after| && IsChild(after[u], c) ==> IsChild(tasks[u], c);
    forall u: nat | 0 < u < |after| && !after[u].Joined?
      ensures HasParent(after, u)
    {
      assert HasParent(tasks, u);
      var q: nat :| q < |tasks| && q < u && IsChild(tasks[q], u);
      assert IsChild(after[q], u);
    }
  }

  lemma {:induction false} LastBlockRange(n: int, blockSize: int)
    requires n > 0 && blockSize > 0
    ensures 1 <= LastBlock(n, blockSize) <= n && LastBlock(n, blockSize) <= blockSize
    decreases n
  {
    if n > blockSize {
      LastBlockRange(n - blockSize, blockSize);
    }
  }

  lemma {:induction false} ClaimersAreWorkers(tasks: seq<Task>)
    ensures 2 * SumOver(tasks, AtClaim) <= SumOver(tasks, Workers)
  {
    if tasks != [] {
      ClaimersAreWorkers(tasks[..|tasks| - 1]);
    }
  }

  /** A worker that is not about to claim leaves one fewer that can be. */
  lemma {:induction false} OtherClaimers(tasks: seq<Task>, t: nat)
    requires t < |tasks| && !tasks[t].Claiming? && !tasks[t].Waiting? && !tasks[t].Joined?
    ensures 2 * SumOver(tasks, AtClaim) + 2 <= SumOver(tasks, Workers)
  {
    var n := |tasks| - 1;
    if t == n {
      ClaimersAreWorkers(tasks[..n]);
    } else {
      OtherClaimers(tasks[..n], t);
    }
  }

  lemma {:induction false} DeniedAtMostTokens(tasks: seq<Task>)
    ensures SumOver(tasks, Denied) <= SumOver(tasks, Token)
  {
    if tasks != [] {
      DeniedAtMostTokens(tasks[..|tasks| - 1]);
    }
  }

  lemma MulMonotone(c: int, x: int, y: int)
    requires c > 0 && x <= y
    ensures c * x <= c * y
  {
  }

  /** How the token, claim and size accounts may move when one task changes. */
  ghost predicate AccountsKept<T>(s: State<T>, s': State<T>, before: Task, after: Task) {
    && s'.blockSize == s.blockSize && |s'.arr| == |s.arr|
    && s'.open + Token(after) == s.open + Token(before)
    && (s'.open >= 0 || s'.open + Denied(after) >= s.open + Denied(before))
    && Workers(after) == Workers(before) == 2
    && (|| (s'.size == s.size && (s.size > 0 || AtClaim(after) <= AtClaim(before)))
        || (s'.size == s.size - s.blockSize && AtClaim(before) == 1 && AtClaim(after) == 0))
  }

  lemma AccountsKeepThreads<T>(s: State<T>, s': State<T>, threads: int, t: nat, task: Task)
    requires Threads(s, threads) && t < |s.tasks| && s'.tasks == s.tasks[t := task]
    requires AccountsKept(s, s', s.tasks[t], task)
    ensures Threads(s', threads)
  {
    SumUpdate(s.tasks, Token, t, task);
    SumUpdate(s.tasks, Denied, t, task);
    SumUpdate(s.tasks, Workers, t, task);
    SumNonNegative(s'.tasks, Denied);
  }

  lemma AccountsKeepSizes<T>(s: State<T>, s': State<T>, threads: int, t: nat, task: Task)
    requires s.blockSize > 0 && Sizes(s, threads) && Threads(s', threads)
    requires t < |s.tasks| && s'.tasks == s.tasks[t := task] && AccountsKept(s, s', s.tasks[t], task)
    ensures Sizes(s', threads)
  {
    hide SumOver;
    var claimers, claimers' := SumOver(s.tasks, AtClaim), SumOver(s'.tasks, AtClaim);
    SumUpdate(s.tasks, AtClaim, t, task);
    if s'.size == s.size {
      if s.size <= 0 { MulMonotone(s.blockSize, claimers', claimers); }
    } else if s.size <= 0 {
      assert s.blockSize * claimers == s.blockSize * claimers' + s.blockSize;
    } else {
      LastBlockRange(s.size, s.blockSize);
      OtherClaimers(s'.tasks, t);
      DeniedAtMostTokens(s'.tasks);
      MulMonotone(s.blockSize, claimers', threads);
    }
  }

  /** A step that changes one task and some counters, but neither the elements nor the two ends. */
  lemma LocalStep<T>(s: State<T>, s': State<T>, p: T -> bool, threads: int, t: nat, task: Task)
    requires Inv(s, p, threads) && t < |s.tasks|
    requires s'.tasks == s.tasks[t := task] && s'.arr == s.arr
    requires s'.lmove == s.lmove && s'.rmove == s.rmove
    requires !s.tasks[t].Waiting? && !s.tasks[t].Joined? && !task.Waiting? && !task.Joined?
    requires TaskOk(s.arr, s'.size, p, task) && Shrinks(s.arr, p, s.tasks[t], task)
    requires Positive(s'.size) + InFlight(task) == Positive(s.size) + InFlight(s.tasks[t])
    requires s'.rtrue + Pending(s.arr, p, task) == s.rtrue + Pending(s.arr, p, s.tasks[t])
    requires AccountsKept(s, s', s.tasks[t], task)
    ensures Inv(s', p, threads)
  {
    ShrinkKeepsOwned(s, s', p, t, task);
    SimpleKeepsTree(s.tasks, t, task);
    AccountsKeepThreads(s, s', threads, t, task);
    AccountsKeepSizes(s, s', threads, t, task);
    assert Claims(s') by {
      SumUpdate(s.tasks, InFlight, t, task);
    }
    assert Counted(s', p) by {
      SumUpdate(s.tasks, PendingIn(s.arr, p), t, task);
    }
    assert TasksOk(s', p);
  }
}

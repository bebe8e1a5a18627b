/**
  When the partition protocol goes wrong: m_size has 64 bits, but every claim is stored in an int. The
  condition under which no schedule loses anything is exact: outside it a schedule is given that does.
 */
module PartitionLimits {
  import opened Tally
  import opened PartitionProtocol
  import opened PartitionInvariant
  import opened PartitionSteps
  import opened PartitionRuns
  import opened PartitionProgress

  // ----- The condition in numbers -----

  lemma ModUnique(a: int, q: int, r: int, b: int)
    requires b > 0 && a == q * b + r && 0 <= r < b
    ensures a % b == r
  {
    var k := a / b;
    assert a == b * k + a % b;
    if k < q {
      MulMonotone(b, k + 1, q);
    } else if q < k {
      MulMonotone(b, q + 1, k);
    }
  }

  lemma {:induction false} LastBlockIsRemainder(n: int, blockSize: int)
    requires n > 0 && blockSize > 0
    ensures LastBlock(n, blockSize) == (n - 1) % blockSize + 1
    decreases n
  {
    if n > blockSize {
      var x := n - 1 - blockSize;
      LastBlockIsRemainder(n - blockSize, blockSize);
      assert n - 1 == (x / blockSize + 1) * blockSize + x % blockSize;
      ModUnique(n - 1, x / blockSize + 1, x % blockSize, blockSize);
    }
  }

  /** What a caller can check before the call. */
  lemma FitsInNumbers(n: nat, threadNum: int)
    ensures var b, threads := BlockSizeFor(n), InitialThreads(n, threadNum);
            Fits(n, threadNum) <==> n < 10000 || (n < 0x8000_0000 && threads * b - ((n - 1) % b + 1) <= 0x8000_0000)
  {
    if n >= 10000 { LastBlockIsRemainder(n, BlockSizeFor(n)); }
  }

  /** One thread more than the number that is always enough is too many for the longest range below 2^31. */
  lemma ThousandIsTheLimit(longest: nat)
    requires longest == 0x7FFF_FFFF
    ensures Fits(longest, 1000) && !Fits(longest, 1001)
  {
    hide Fits, LastBlock;
    UsualSizesFit(longest, 1000);
    FitsInNumbers(longest, 1001);
    assert BlockSizeFor(longest) == 2147483 && InitialThreads(longest, 1001) == 1001;
  }

  // ----- Reachable states -----

  ghost predicate Reaches<T>(s: State<T>, p: T -> bool, s': State<T>) {
    exists schedule :: IsRun(s, p, schedule) && After(s, p, schedule) == s'
  }

  lemma ReachesItself<T>(s: State<T>, p: T -> bool)
    ensures Reaches(s, p, s)
  {
    assert IsRun(s, p, []) && After(s, p, []) == s;
  }

  /** A step, and then whatever can be reached from there. */
  lemma ReachesFirst<T>(s: State<T>, p: T -> bool, t: nat, s': State<T>)
    requires Enabled(s, t) && Safe(s, t) && Reaches(Step(s, p, t), p, s')
    ensures Reaches(s, p, s')
  {
    var rest :| IsRun(Step(s, p, t), p, rest) && After(Step(s, p, t), p, rest) == s';
    var schedule := [t] + rest;
    assert schedule[0] == t && schedule[1..] == rest;
    assert IsRun(s, p, schedule) && After(s, p, schedule) == s';
  }

  lemma {:induction false} RunsCompose<T>(s: State<T>, p: T -> bool, a: seq<nat>, b: seq<nat>)
    requires IsRun(s, p, a) && IsRun(After(s, p, a), p, b)
    ensures IsRun(s, p, a + b) && After(s, p, a + b) == After(After(s, p, a), p, b)
    decreases |a|
  {
    if a == [] {
      assert a + b == b;
    } else {
      assert (a + b)[0] == a[0] && (a + b)[1..] == a[1..] + b;
      RunsCompose(Step(s, p, a[0]), p, a[1..], b);
    }
  }

  lemma ReachesOn<T>(s: State<T>, p: T -> bool, s1: State<T>, s2: State<T>)
    requires Reaches(s, p, s1) && Reaches(s1, p, s2)
    ensures Reaches(s, p, s2)
  {
    var a :| IsRun(s, p, a) && After(s, p, a) == s1;
    var b :| IsRun(s1, p, b) && After(s1, p, b) == s2;
    RunsCompose(s, p, a, b);
  }

  // ----- All workers gather at their first claim -----

  predicate Early(task: Task) {
    task.Ready? || task.Entered? || (task.Leaving? && task.threadsLeft < 1) || task.Testing? || task.Claiming? || task.Waiting?
  }

  /** The task has found no token left. */
  predicate Tried(task: Task) {
    (task.Entered? && task.threadsLeft < 1) || task.Leaving? || task.Testing? || task.Claiming?
  }

  predicate Gathered(task: Task) {
    task.Claiming? || task.Waiting?
  }

  /** A worker that has not claimed anything yet has two empty blocks. */
  predicate EmptyHanded(task: Task) {
    match task
    case Testing(b) => b.lbs == b.lbe && b.rbs == b.rbe
    case Claiming(b) => b.lbs == b.lbe && b.rbs == b.rbe
    case _ => true
  }

  /** Nothing has been claimed yet, and tasks become workers only when all tokens are used up. */
  ghost predicate Gathering<T>(s: State<T>, p: T -> bool, threads: int) {
    && Inv(s, p, threads) && s.size == |s.arr| == s.rmove > 0
    && (forall t :: 0 <= t < |s.tasks| ==> EmptyHanded(s.tasks[t]))
    && (forall t :: 0 <= t < |s.tasks| ==> Early(s.tasks[t]))
    && (s.open + SumOver(s.tasks, Denied) == 0 || forall t :: 0 <= t < |s.tasks| ==> !Tried(s.tasks[t]))
  }

  lemma TokensLeft<T>(s: State<T>, p: T -> bool, threads: int)
    requires Inv(s, p, threads)
    ensures s.open + SumOver(s.tasks, Denied) >= 0
    ensures (forall t :: 0 <= t < |s.tasks| ==> !Tried(s.tasks[t])) ==> SumOver(s.tasks, Denied) == 0
    ensures SumOver(s.tasks, Denied) >= 0
  {
    SumNonNegative(s.tasks, Denied);
    if forall t :: 0 <= t < |s.tasks| ==> !Tried(s.tasks[t]) {
      assert forall t :: 0 <= t < |s.tasks| ==> Denied(s.tasks[t]) == 0;
      SumZero(s.tasks, Denied);
    }
  }

  lemma GatherStep<T>(s: State<T>, p: T -> bool, threads: int, t: nat)
    requires Gathering(s, p, threads) && t < |s.tasks| && !Gathered(s.tasks[t])
    ensures Enabled(s, t) && Safe(s, t) && Gathering(Step(s, p, t), p, threads)
    ensures Step(s, p, t).arr == s.arr && Step(s, p, t).blockSize == s.blockSize
  {
    hide Inv, SumOver;
    var s' := Step(s, p, t);
    assert Early(s.tasks[t]) && EmptyHanded(s.tasks[t]);
    StepKeeps(s, p, threads, t);
    TokensLeft(s, p, threads);
    if s.tasks[t].Entered? && s.tasks[t].threadsLeft >= 1 {
      SumSplit(s.tasks, Denied, t);
    } else {
      SumUpdate(s.tasks, Denied, t, s'.tasks[t]);
    }
  }

  /** Run everybody else until all tasks wait or are about to claim. */
  lemma {:induction false} Gather<T>(s: State<T>, p: T -> bool, threads: int) returns (s': State<T>)
    requires Gathering(s, p, threads)
    ensures Reaches(s, p, s') && Gathering(s', p, threads) && s'.arr == s.arr && s'.blockSize == s.blockSize
    ensures forall t :: 0 <= t < |s'.tasks| ==> Gathered(s'.tasks[t])
    decreases SplitsLeft(s), Unplaced(s), Misplaced(s, p), Work(s)
  {
    hide Inv, Reaches, SplitsLeft, Unplaced, Misplaced, Work;
    if t: nat :| t < |s.tasks| && !Gathered(s.tasks[t]) {
      GatherStep(s, p, threads, t);
      StepProgress(s, p, threads, t);
      MeasureBounded(s, p, threads);
      MeasureBounded(Step(s, p, t), p, threads);
      s' := Gather(Step(s, p, t), p, threads);
      ReachesFirst(s, p, t, s');
    } else {
      s' := s;
      ReachesItself(s, p);
    }
  }

  lemma {:induction false} SomeClaimer(tasks: seq<Task>) returns (t: nat)
    requires SumOver(tasks, AtClaim) > 0
    ensures t < |tasks| && tasks[t].Claiming?
  {
    var n := |tasks| - 1;
    if tasks[n].Claiming? {
      t := n;
    } else {
      t := SomeClaimer(tasks[..n]);
    }
  }

  lemma {:induction false} GatheredWorkers(tasks: seq<Task>)
    requires forall t :: 0 <= t < |tasks| ==> Gathered(tasks[t])
    ensures SumOver(tasks, Workers) == 2 * SumOver(tasks, AtClaim)
  {
    if tasks != [] {
      GatheredWorkers(tasks[..|tasks| - 1]);
    }
  }

  /** Then one worker more than there were tokens is about to claim. */
  lemma AllGathered<T>(s: State<T>, p: T -> bool, threads: int)
    requires Gathering(s, p, threads) && forall t :: 0 <= t < |s.tasks| ==> Gathered(s.tasks[t])
    ensures SumOver(s.tasks, AtClaim) == threads + 1
    ensures SumOver(s.tasks, InFlight) == 0
  {
    GatheredWorkers(s.tasks);
    SumZero(s.tasks, Token);
    SumZero(s.tasks, Denied);
    SumZero(s.tasks, InFlight);
    var t := SomeClaimer(s.tasks);
    assert Tried(s.tasks[t]);
  }

  lemma StartGathers<T>(input: seq<T>, p: T -> bool, threadNum: int)
    requires input != []
    ensures Gathering(Start(input, threadNum), p, InitialThreads(|input|, threadNum))
  {
    StartOk(input, p, threadNum);
  }

  // ----- One of them claims everything -----

  predicate Looping(task: Task) {
    task.Testing? || task.Claiming? || task.Placing? || task.Scanning?
  }

  ghost predicate AllTrue<T>(arr: seq<T>, p: T -> bool) {
    forall i :: 0 <= i < |arr| ==> p(arr[i])
  }

  /** With true elements only, a worker uses up every left block before its next claim, and never claims on the right. */
  ghost predicate LeftOnly<T>(s: State<T>, p: T -> bool, w: nat)
    requires w < |s.tasks|
  {
    && AllTrue(s.arr, p) && s.rmove == |s.arr|
    && match s.tasks[w]
       case Testing(b) => b.lbs == b.lbe && b.rbs == b.rbe
       case Claiming(b) => b.lbs == b.lbe && b.rbs == b.rbe
       case Placing(b, _) => b.lbs == b.lbe && b.rbs == b.rbe
       case Scanning(b, phase) => b.rbs == b.rbe && (!phase.ScanLeft? ==> b.lbs == b.lbe)
       case _ => false
  }

  lemma LeftOnlyStep<T>(s: State<T>, p: T -> bool, w: nat)
    requires Enabled(s, w) && Safe(s, w) && Looping(s.tasks[w]) && Looping(Step(s, p, w).tasks[w]) && LeftOnly(s, p, w)
    ensures LeftOnly(Step(s, p, w), p, w)
  {
  }

  /** While m_size is positive a worker stays in its loop, and no conversion loses anything. */
  lemma LoopStep<T>(s: State<T>, p: T -> bool, threads: int, w: nat)
    requires Inv(s, p, threads) && |s.arr| < 0x8000_0000 && w < |s.tasks| && Looping(s.tasks[w])
    requires s.size > 0 || s.tasks[w].Placing?
    ensures Enabled(s, w) && Safe(s, w)
    ensures var s' := Step(s, p, w);
            && Inv(s', p, threads) && |s'.arr| == |s.arr| && s'.blockSize == s.blockSize
            && s'.tasks == s.tasks[w := s'.tasks[w]] && Looping(s'.tasks[w])
            && s'.size == (if s.tasks[w].Claiming? then s.size - s.blockSize else s.size)
            && (s.tasks[w].Claiming? <==> s'.tasks[w].Placing?)
            && (s.tasks[w].Placing? ==> s'.tasks[w].Scanning?)
            && (LeftOnly(s, p, w) ==> LeftOnly(s', p, w))
  {
    ToInt32Exact(s.size);
    ToInt32Exact(s.lmove);
    ToInt32Exact(s.rmove);
    hide Owned, Cleared, Counted, Threads, Tree, LeftOnly;
    StepKeeps(s, p, threads, w);
    if LeftOnly(s, p, w) { LeftOnlyStep(s, p, w); }
  }

  /** Worker w makes all real claims; the others stay where they are. */
  lemma {:induction false} Drain<T>(s: State<T>, p: T -> bool, threads: int, w: nat) returns (s': State<T>)
    requires Inv(s, p, threads) && |s.arr| < 0x8000_0000 && s.size > 0 && w < |s.tasks|
    requires Looping(s.tasks[w])
    ensures Reaches(s, p, s') && Inv(s', p, threads) && |s'.arr| == |s.arr| && s'.blockSize == s.blockSize
    ensures |s'.tasks| == |s.tasks| && s'.tasks == s.tasks[w := s'.tasks[w]] && s'.tasks[w].Scanning?
    ensures s'.size == LastBlock(|s.arr|, s.blockSize) - s.blockSize
    ensures LeftOnly(s, p, w) ==> LeftOnly(s', p, w)
    decreases SplitsLeft(s), Unplaced(s), Misplaced(s, p), Work(s)
  {
    hide Reaches, SplitsLeft, Unplaced, Misplaced, Work, LeftOnly;
    LoopStep(s, p, threads, w);
    var s1 := Step(s, p, w);
    if s1.size > 0 {
      StepProgress(s, p, threads, w);
      MeasureBounded(s, p, threads);
      MeasureBounded(s1, p, threads);
      s' := Drain(s1, p, threads, w);
    } else {
      LoopStep(s1, p, threads, w);
      s' := Step(s1, p, w);
      ReachesItself(s', p);
      ReachesFirst(s1, p, w, s');
    }
    ReachesFirst(s, p, w, s');
  }

  // ----- The others overshoot, one after the other -----

  /** Enough workers are about to claim for m_size to fall below the smallest int. */
  ghost predicate Falling<T>(s: State<T>, p: T -> bool, threads: int) {
    && Inv(s, p, threads) && |s.arr| < 0x8000_0000
    && -0x8000_0000 - s.blockSize <= s.size <= 0 && SumOver(s.tasks, InFlight) == 0
    && SumOver(s.tasks, AtClaim) >= 1
    && s.size - s.blockSize * (SumOver(s.tasks, AtClaim) - 1) < -0x8000_0000
  }

  lemma FallStep<T>(s: State<T>, p: T -> bool, threads: int, t: nat)
    requires Falling(s, p, threads) && s.size >= -0x8000_0000 && t < |s.tasks| && s.tasks[t].Claiming?
    ensures Falling(Step(s, p, t), p, threads) && Enabled(s, t)
    ensures |Step(s, p, t).arr| == |s.arr| && Step(s, p, t).blockSize == s.blockSize
    ensures SumOver(Step(s, p, t).tasks, AtClaim) == SumOver(s.tasks, AtClaim) - 1
    ensures Step(s, p, t).rmove == s.rmove
    ensures (forall u :: 0 <= u < |s.tasks| ==> EmptyHanded(s.tasks[u])) ==>
              forall u :: 0 <= u < |Step(s, p, t).tasks| ==> EmptyHanded(Step(s, p, t).tasks[u])
  {
    hide Owned, Cleared, Counted, Threads, Tree, SumOver;
    var s' := Step(s, p, t);
    var claimers := SumOver(s.tasks, AtClaim);
    ToInt32Exact(s.size);
    StepKeeps(s, p, threads, t);
    SumUpdate(s.tasks, AtClaim, t, s'.tasks[t]);
    SumUpdate(s.tasks, InFlight, t, s'.tasks[t]);
    assert s.blockSize * (claimers - 1) == s.blockSize * (claimers - 2) + s.blockSize;
    if claimers <= 1 { MulMonotone(s.blockSize, claimers - 1, 0); }
  }

  lemma {:induction false} Fall<T>(s: State<T>, p: T -> bool, threads: int) returns (s': State<T>, t: nat)
    requires Falling(s, p, threads)
    ensures Reaches(s, p, s') && Falling(s', p, threads) && s'.size < -0x8000_0000 && s'.blockSize == s.blockSize
    ensures |s'.arr| == |s.arr| && t < |s'.tasks| && s'.tasks[t].Claiming? && s'.rmove == s.rmove
    ensures (forall u :: 0 <= u < |s.tasks| ==> EmptyHanded(s.tasks[u])) ==> EmptyHanded(s'.tasks[t])
    decreases SumOver(s.tasks, AtClaim)
  {
    hide Reaches;
    t := SomeClaimer(s.tasks);
    if s.size < -0x8000_0000 {
      s' := s;
      ReachesItself(s, p);
    } else {
      FallStep(s, p, threads, t);
      var first := t;
      s', t := Fall(Step(s, p, first), p, threads);
      ReachesFirst(s, p, first, s');
    }
  }

  // ----- The condition is exact -----

  ghost predicate AllExact<T>(s: State<T>) {
    forall t: nat :: t < |s.tasks| ==> Exact(s, t)
  }

  /** From 2^31 elements on, the very first claim is stored wrongly. */
  lemma TooLong<T>(input: seq<T>, p: T -> bool, threadNum: int) returns (s: State<T>)
    requires |input| >= 0x8000_0000
    ensures Reaches(Start(input, threadNum), p, s) && s.size == |input| && !AllExact(s)
  {
    hide Reaches;
    var threads := InitialThreads(|input|, threadNum);
    StartGathers(input, p, threadNum);
    s := Gather(Start(input, threadNum), p, threads);
    AllGathered(s, p, threads);
    var t := SomeClaimer(s.tasks);
    ToInt32Exact(s.size);
    assert !Exact(s, t);
  }

  /** With too many threads for the block size, m_size falls below -2^31 while a worker is about to claim. */
  lemma TooManyThreads<T>(input: seq<T>, p: T -> bool, threadNum: int) returns (s: State<T>, t: nat)
    requires |input| < 0x8000_0000 && !Fits(|input|, threadNum)
    ensures Reaches(Start(input, threadNum), p, s) && t < |s.tasks| && s.tasks[t].Claiming?
    ensures Falling(s, p, InitialThreads(|input|, threadNum)) && s.size < -0x8000_0000
    ensures |s.arr| == |input| && s.blockSize == BlockSizeFor(|input|)
    ensures AllTrue(input, p) ==> s.rmove == |input| && EmptyHanded(s.tasks[t])
  {
    hide Reaches, Inv, SumOver;
    var start := Start(input, threadNum);
    var threads := InitialThreads(|input|, threadNum);
    StartGathers(input, p, threadNum);
    var s1 := Gather(start, p, threads);
    AllGathered(s1, p, threads);
    var w := SomeClaimer(s1.tasks);
    var s2 := Drain(s1, p, threads, w);
    SumUpdate(s1.tasks, AtClaim, w, s2.tasks[w]);
    SumUpdate(s1.tasks, InFlight, w, s2.tasks[w]);
    LastBlockRange(|input|, start.blockSize);
    assert start.blockSize * threads == start.blockSize * (threads - 1) + start.blockSize;
    if AllTrue(input, p) {
      assert LeftOnly(s1, p, w) && LeftOnly(s2, p, w);
      assert forall u :: 0 <= u < |s2.tasks| ==> EmptyHanded(s2.tasks[u]);
    }
    s, t := Fall(s2, p, threads);
    ReachesOn(start, p, s1, s2);
    ReachesOn(start, p, s2, s);
  }

  /** No schedule makes a conversion to int lose anything exactly when the range and the number of threads fit. */
  lemma FitsExactly<T>(input: seq<T>, p: T -> bool, threadNum: int)
    ensures Fits(|input|, threadNum) <==>
            forall schedule :: IsRun(Start(input, threadNum), p, schedule) ==> AllExact(After(Start(input, threadNum), p, schedule))
  {
    hide IsRun, After, AllExact, Fits, Start, Reaches;
    var start := Start(input, threadNum);
    if Fits(|input|, threadNum) {
      forall schedule | IsRun(start, p, schedule)
        ensures AllExact(After(start, p, schedule))
      {
        FittingRuns(input, p, threadNum, schedule);
      }
    } else {
      var s;
      if |input| >= 0x8000_0000 {
        s := TooLong(input, p, threadNum);
      } else {
        var t;
        s, t := TooManyThreads(input, p, threadNum);
        TooLow(s, t);
      }
      NotAlways(start, p, s);
    }
  }

  lemma TooLow<T>(s: State<T>, t: nat)
    requires t < |s.tasks| && s.tasks[t].Claiming? && s.size < -0x8000_0000
    ensures !AllExact(s)
  {
    ToInt32Exact(s.size);
    assert !Exact(s, t);
  }

  /** A reachable state refutes a claim about all runs. */
  lemma NotAlways<T>(s: State<T>, p: T -> bool, s': State<T>)
    requires Reaches(s, p, s')
    ensures !AllExact(s') ==> !forall schedule :: IsRun(s, p, schedule) ==> AllExact(After(s, p, schedule))
    ensures s'.lmove > s'.rmove ==>
            !forall schedule :: IsRun(s, p, schedule) ==> After(s, p, schedule).lmove <= After(s, p, schedule).rmove
  {
    var schedule :| IsRun(s, p, schedule) && After(s, p, schedule) == s';
  }

  lemma FittingRuns<T>(input: seq<T>, p: T -> bool, threadNum: int, schedule: seq<nat>)
    requires Fits(|input|, threadNum) && IsRun(Start(input, threadNum), p, schedule)
    ensures var s := After(Start(input, threadNum), p, schedule); AllExact(s) && s.lmove <= s.rmove
  {
    hide IsRun, After, Fits, Bounded;
    var threads := InitialThreads(|input|, threadNum);
    FitsIsBounded(|input|, threadNum);
    StartOk(input, p, threadNum);
    RunKeeps(Start(input, threadNum), p, threads, schedule);
    var s := After(Start(input, threadNum), p, schedule);
    forall t: nat | t < |s.tasks|
      ensures Exact(s, t)
    {
      SizeFits(s, p, threads, t);
    }
  }

  /** What happens otherwise: the wrong value is a whole block, taken although everything is claimed. */
  lemma ClaimsTwice<T>(input: seq<T>, p: T -> bool, threadNum: int) returns (s: State<T>)
    requires |input| < 0x8000_0000 && !Fits(|input|, threadNum)
    ensures Reaches(Start(input, threadNum), p, s) && s.lmove == s.rmove + BlockSizeFor(|input|) > s.rmove
  {
    hide Reaches;
    hide SumOver, Owned, Cleared, Counted, Threads, Sizes, Tree, TasksOk;
    var s1, t := TooManyThreads(input, p, threadNum);
    var s2 := Step(s1, p, t);
    assert s2.tasks[t].Placing? && s2.tasks[t].mySize == s1.blockSize;
    s := Step(s2, p, t);
    ReachesItself(s, p);
    ReachesFirst(s2, p, t, s);
    ReachesFirst(s1, p, t, s);
    ReachesOn(Start(input, threadNum), p, s1, s);
  }

  /** Below 2^31 elements, no schedule claims an element from both ends exactly when the number of threads fits. */
  lemma ClaimsOnceExactly<T>(input: seq<T>, p: T -> bool, threadNum: int)
    requires |input| < 0x8000_0000
    ensures Fits(|input|, threadNum) <==>
            forall schedule :: IsRun(Start(input, threadNum), p, schedule) ==>
              After(Start(input, threadNum), p, schedule).lmove <= After(Start(input, threadNum), p, schedule).rmove
  {
    hide IsRun, After, Fits, Start, Reaches;
    var start := Start(input, threadNum);
    if Fits(|input|, threadNum) {
      forall schedule | IsRun(start, p, schedule)
        ensures After(start, p, schedule).lmove <= After(start, p, schedule).rmove
      {
        FittingRuns(input, p, threadNum, schedule);
      }
    } else {
      var s := ClaimsTwice(input, p, threadNum);
      NotAlways(start, p, s);
    }
  }

  // ----- The same condition decides whether the workers stay inside the range -----

  ghost predicate AllSafe<T>(s: State<T>) {
    forall t: nat :: t < |s.tasks| && Enabled(s, t) ==> Safe(s, t)
  }

  /** A range of true elements: the block that is claimed twice lies past its end, and its first element is read. */
  lemma ReadsPastTheEnd<T>(input: seq<T>, p: T -> bool, threadNum: int) returns (s: State<T>)
    requires |input| < 0x8000_0000 && !Fits(|input|, threadNum) && AllTrue(input, p)
    ensures Reaches(Start(input, threadNum), p, s) && !AllSafe(s)
  {
    hide Reaches;
    hide SumOver, Owned, Cleared, Counted, Threads, Sizes, Tree, TasksOk, Fits, Start;
    var s1, t := TooManyThreads(input, p, threadNum);
    var s2 := Step(s1, p, t);
    assert s2.tasks[t].Placing? && s2.tasks[t].mySize == s1.blockSize;
    ToInt32Exact(s2.lmove);
    s := Step(s2, p, t);
    assert s.tasks[t].Scanning? && s.tasks[t].b.lbs == |input| == |s.arr|;
    assert Enabled(s, t) && !Safe(s, t);
    ReachesItself(s, p);
    ReachesFirst(s2, p, t, s);
    ReachesFirst(s1, p, t, s);
    ReachesOn(Start(input, threadNum), p, s1, s);
  }

  /**
    Below 2^31 elements: no predicate and no schedule make a worker access an element outside the range
    exactly when the range and the number of threads fit.
   */
  lemma SafeExactly<T>(input: seq<T>, threadNum: int)
    requires |input| < 0x8000_0000
    ensures Fits(|input|, threadNum) <==>
            forall p: T -> bool, schedule :: IsRun(Start(input, threadNum), p, schedule) ==> AllSafe(After(Start(input, threadNum), p, schedule))
  {
    hide IsRun, After, Fits, Start, Reaches, AllSafe;
    var start := Start(input, threadNum);
    if Fits(|input|, threadNum) {
      forall p: T -> bool, schedule | IsRun(start, p, schedule)
        ensures AllSafe(After(start, p, schedule))
      {
        FittingRunsAreSafe(input, p, threadNum, schedule);
      }
    } else {
      var always: T -> bool := x => true;
      var s := ReadsPastTheEnd(input, always, threadNum);
      var schedule := RunTo(start, always, s);
      assert IsRun(start, always, schedule) && !AllSafe(After(start, always, schedule));
    }
  }

  lemma RunTo<T>(s: State<T>, p: T -> bool, s': State<T>) returns (schedule: seq<nat>)
    requires Reaches(s, p, s')
    ensures IsRun(s, p, schedule) && After(s, p, schedule) == s'
  {
    schedule :| IsRun(s, p, schedule) && After(s, p, schedule) == s';
  }

  lemma FittingRunsAreSafe<T>(input: seq<T>, p: T -> bool, threadNum: int, schedule: seq<nat>)
    requires Fits(|input|, threadNum) && IsRun(Start(input, threadNum), p, schedule)
    ensures AllSafe(After(Start(input, threadNum), p, schedule))
  {
    hide IsRun, After, Fits, Bounded, Safe;
    var threads := InitialThreads(|input|, threadNum);
    FitsIsBounded(|input|, threadNum);
    StartOk(input, p, threadNum);
    RunKeeps(Start(input, threadNum), p, threads, schedule);
    var s := After(Start(input, threadNum), p, schedule);
    forall t: nat | t < |s.tasks| && Enabled(s, t)
      ensures Safe(s, t)
    {
      Safety(s, p, threads, t);
    }
  }
}

/** Every step of the partition protocol brings the run closer to its end, whatever the scheduler does. */
module PartitionProgress {
  import opened Tally
  import opened PartitionProtocol
  import opened PartitionInvariant
  import opened PartitionSteps

  /** Splits that are still possible. */
  ghost function SplitsLeft<T>(s: State<T>): int {
    s.open + SumOver(s.tasks, Token)
  }

  /** Elements that neither end has reached. */
  function Unplaced<T>(s: State<T>): int {
    s.rmove - s.lmove
  }

  /** False elements among the left claims; each exchange removes one. */
  function Misplaced<T>(s: State<T>, p: T -> bool): int {
    s.lmove - CountTrue(s.arr, p, 0, s.lmove)
  }

  /** Work in a rest list: its elements, and a charge for taking each interval up. */
  function RestWork(rests: seq<Interval>): int {
    if rests == [] then 0 else rests[0].hi - rests[0].lo + 5 + RestWork(rests[1..])
  }

  function BlockWork(b: Blocks): int {
    b.lbe - b.lbs + b.rbs - b.rbe
  }

  function OpenWork(r: Rests): int {
    r.lbe - r.lbs + r.rbe - r.rbs + RestWork(r.lRest) + RestWork(r.rRest)
  }

  function PhaseRank(phase: Phase): int {
    match phase case ScanLeft => 3 case ScanRight => 2 case Compare => 1
  }

  /** How far a task is from its next claim, split or end, not counting exchanges. */
  function Rank(task: Task): int {
    match task
    case Ready => 13
    case Entered(_) => 12
    case Leaving(_) => 11
    case Scanning(b, phase) => 10 + PhaseRank(phase) + BlockWork(b)
    case Testing(b) => 10 + BlockWork(b)
    case Claiming(b) => 9 + BlockWork(b)
    case Placing(b, _) => 8 + BlockWork(b)
    case Counting(b) => 7 + BlockWork(b)
    case Waiting(_, _) => 7
    case Publishing(_, l, r) => 1 + RestWork(l) + RestWork(r)
    case Merging(r, phase) => 6 + PhaseRank(phase) + OpenWork(r)
    case Pairing(r) => 6 + OpenWork(r)
    case Done(l, r) => RestWork(l) + RestWork(r)
    case Joined => 0
  }

  ghost function Work<T>(s: State<T>): int {
    SumOver(s.tasks, Rank)
  }

  lemma {:induction false} RestWorkConcat(a: seq<Interval>, b: seq<Interval>)
    ensures RestWork(a + b) == RestWork(a) + RestWork(b)
  {
    if a == [] {
      assert a + b == b;
    } else {
      assert (a + b)[1..] == a[1..] + b;
      RestWorkConcat(a[1..], b);
    }
  }

  lemma {:induction false} RestWorkNonNegative(a: seq<Interval>)
    requires Ordered(a)
    ensures RestWork(a) >= 0
  {
    if a != [] { RestWorkNonNegative(a[1..]); }
  }

  lemma RestWorkOne(lo: int, hi: int)
    ensures RestWork([Interval(lo, hi)]) == hi - lo + 5
  {
  }

  lemma RankNonNegative<T>(s: State<T>, p: T -> bool, t: nat)
    requires TasksOk(s, p) && t < |s.tasks|
    ensures Rank(s.tasks[t]) >= 0
  {
    assert TaskOk(s.arr, s.size, p, s.tasks[t]);
    match s.tasks[t]
    case Publishing(_, l, r) => RestWorkNonNegative(l); RestWorkNonNegative(r);
    case Done(l, r) => RestWorkNonNegative(l); RestWorkNonNegative(r);
    case Merging(r, _) => RestWorkNonNegative(r.lRest); RestWorkNonNegative(r.rRest);
    case Pairing(r) => RestWorkNonNegative(r.lRest); RestWorkNonNegative(r.rRest);
    case _ =>
  }

  lemma MeasureBounded<T>(s: State<T>, p: T -> bool, threads: int)
    requires Inv(s, p, threads)
    ensures SplitsLeft(s) >= 0 && Unplaced(s) >= 0 && Misplaced(s, p) >= 0 && Work(s) >= 0
  {
    DeniedAtMostTokens(s.tasks);
    CountTrueExtremes(s.arr, p, 0, s.lmove);
    forall t | 0 <= t < |s.tasks|
      ensures Rank(s.tasks[t]) >= 0
    {
      RankNonNegative(s, p, t);
    }
    SumNonNegative(s.tasks, Rank);
  }

  /** The lexicographic order on the four components. */
  ghost predicate Closer<T>(s': State<T>, s: State<T>, p: T -> bool) {
    || SplitsLeft(s') < SplitsLeft(s)
    || (SplitsLeft(s') == SplitsLeft(s) &&
        (|| Unplaced(s') < Unplaced(s)
         || (Unplaced(s') == Unplaced(s) &&
             (|| Misplaced(s', p) < Misplaced(s, p)
              || (Misplaced(s', p) == Misplaced(s, p) && Work(s') < Work(s))))))
  }

  /** A step of one task that neither splits, places nor exchanges lowers that task's rank. */
  lemma LocalProgress<T>(s: State<T>, s': State<T>, p: T -> bool, t: nat, task: Task)
    requires t < |s.tasks| && s'.tasks == s.tasks[t := task]
    requires s'.arr == s.arr && s'.lmove == s.lmove && s'.rmove == s.rmove
    requires s'.open + Token(task) == s.open + Token(s.tasks[t])
    requires Rank(task) < Rank(s.tasks[t])
    ensures Closer(s', s, p)
  {
    SumUpdate(s.tasks, Token, t, task);
    SumUpdate(s.tasks, Rank, t, task);
  }

  lemma SplitProgress<T>(s: State<T>, p: T -> bool, t: nat)
    requires t < |s.tasks| && s.tasks[t].Entered?
    ensures Closer(Split(s, t), s, p)
  {
    SumSplit(s.tasks, Token, t);
  }

  lemma PlaceProgress<T>(s: State<T>, p: T -> bool, t: nat, b: Blocks, mySize: int)
    requires t < |s.tasks| && s.tasks[t] == Placing(b, mySize) && mySize > 0
    ensures Closer(Place(s, t, b, mySize), s, p)
  {
    SumUpdate(s.tasks, Token, t, Place(s, t, b, mySize).tasks[t]);
  }

  lemma ExchangeProgress<T>(s: State<T>, p: T -> bool, t: nat, i: int, j: int, task: Task)
    requires t < |s.tasks| && Token(task) == Token(s.tasks[t])
    requires 0 <= i < s.lmove <= s.rmove <= j < |s.arr| && !p(s.arr[i]) && p(s.arr[j])
    ensures Closer(Exchange(s, t, i, j, task), s, p)
  {
    SumUpdate(s.tasks, Token, t, task);
    CountTrueSwap(s.arr, p, 0, s.lmove, i, j);
  }

  lemma JoinProgress<T>(s: State<T>, p: T -> bool, t: nat, c1: nat, c2: nat)
    requires CanJoin(s.tasks, t, c1, c2)
    ensures Closer(Join(s, t, c1, c2), s, p)
  {
    hide SumOver, CountTrue, RestWork;
    var parent := Join(s, t, c1, c2).tasks[t];
    SumJoin(s.tasks, Token, t, c1, c2, parent);
    SumJoin(s.tasks, Rank, t, c1, c2, parent);
    RestWorkConcat(s.tasks[c1].lDone, s.tasks[c2].lDone);
    RestWorkConcat(s.tasks[c1].rDone, s.tasks[c2].rDone);
  }

  lemma CountProgress<T>(s: State<T>, p: T -> bool, t: nat, b: Blocks)
    requires t < |s.tasks| && s.tasks[t] == Counting(b) && OneSideEmpty(b)
    ensures Closer(Count(s, p, t, b), s, p)
  {
    RestWorkOne(b.lbs, b.lbe);
    RestWorkOne(b.rbe + 1, b.rbs + 1);
    LocalProgress(s, Count(s, p, t, b), p, t, Count(s, p, t, b).tasks[t]);
  }

  /** Taking up a rest is paid for by its charge. */
  lemma RefillWork(r: Rests)
    requires (r.rRest != [] || r.rbs != r.rbe) && (r.lRest != [] || r.lbs != r.lbe)
    requires r.lbs == r.lbe || r.rbs == r.rbe
    ensures OpenWork(Refill(r)) <= OpenWork(r) - 5
  {
  }

  lemma DoneWork(rests: seq<Interval>, lo: int, hi: int)
    requires lo <= hi
    ensures RestWork(rests + (if lo != hi then [Interval(lo, hi)] else [])) <= RestWork(rests) + hi - lo + (if lo != hi then 5 else 0)
  {
    RestWorkOne(lo, hi);
    RestWorkConcat(rests, [Interval(lo, hi)]);
    assert rests + [] == rests;
  }

  lemma PairProgress<T>(s: State<T>, p: T -> bool, t: nat, r: Rests)
    requires t < |s.tasks| && s.tasks[t] == Pairing(r) && RestsOrdered(r) && (r.lbs == r.lbe || r.rbs == r.rbe)
    ensures Closer(Pair(s, t, r), s, p)
  {
    hide RestWork, Ordered, SumOver, CountTrue;
    var task := Pair(s, t, r).tasks[t];
    if task.Merging? {
      RefillWork(r);
    } else {
      DoneWork(r.lRest, r.lbs, r.lbe);
      DoneWork(r.rRest, r.rbs, r.rbe);
    }
    LocalProgress(s, Pair(s, t, r), p, t, task);
  }

  lemma ScanProgress<T>(s: State<T>, p: T -> bool, t: nat, b: Blocks, phase: Phase)
    requires Claims(s) && Owned(s) && TasksOk(s, p)
    requires t < |s.tasks| && s.tasks[t] == Scanning(b, phase) && Safe(s, t)
    ensures Closer(Scan(s, p, t, b, phase), s, p)
  {
    assert TaskOk(s.arr, s.size, p, s.tasks[t]);
    var s' := Scan(s, p, t, b, phase);
    if phase.Compare? && b.lbs != b.lbe && b.rbs != b.rbe {
      assert OwnsLeft(s.tasks[t], b.lbs) && OwnsRight(s.tasks[t], b.rbs);
      ExchangeProgress(s, p, t, b.lbs, b.rbs, Scanning(b, ScanLeft));
    } else {
      LocalProgress(s, s', p, t, s'.tasks[t]);
    }
  }

  lemma MergeProgress<T>(s: State<T>, p: T -> bool, t: nat, r: Rests, phase: Phase)
    requires Claims(s) && Owned(s) && TasksOk(s, p)
    requires t < |s.tasks| && s.tasks[t] == Merging(r, phase) && Safe(s, t)
    ensures Closer(Merge(s, p, t, r, phase), s, p)
  {
    assert TaskOk(s.arr, s.size, p, s.tasks[t]);
    var s' := Merge(s, p, t, r, phase);
    if phase.Compare? && r.lbs != r.lbe && r.rbs != r.rbe {
      assert OwnsLeft(s.tasks[t], r.lbs) && OwnsRight(s.tasks[t], r.rbs);
      ExchangeProgress(s, p, t, r.lbs, r.rbs, Merging(r, ScanLeft));
    } else {
      LocalProgress(s, s', p, t, s'.tasks[t]);
    }
  }

  /** Main result: no schedule can keep the workers busy for ever. */
  lemma StepProgress<T>(s: State<T>, p: T -> bool, threads: int, t: nat)
    requires Inv(s, p, threads) && Enabled(s, t) && Safe(s, t)
    ensures Closer(Step(s, p, t), s, p)
  {
    var s' := Step(s, p, t);
    assert TaskOk(s.arr, s.size, p, s.tasks[t]);
    match s.tasks[t]
    case Entered(threadsLeft) =>
      if threadsLeft < 1 || s.size < 0 {
        LocalProgress(s, s', p, t, s'.tasks[t]);
      } else {
        SplitProgress(s, p, t);
      }
    case Placing(b, mySize) => PlaceProgress(s, p, t, b, mySize);
    case Scanning(b, phase) => ScanProgress(s, p, t, b, phase);
    case Counting(b) => CountProgress(s, p, t, b);
    case Waiting(c1, c2) =>
      assert IsChild(s.tasks[t], c1) && IsChild(s.tasks[t], c2);
      JoinProgress(s, p, t, c1, c2);
    case Pairing(r) => PairProgress(s, p, t, r);
    case Merging(r, phase) => MergeProgress(s, p, t, r, phase);
    case Ready => LocalProgress(s, s', p, t, s'.tasks[t]);
    case Leaving(_) => LocalProgress(s, s', p, t, s'.tasks[t]);
    case Testing(_) => LocalProgress(s, s', p, t, s'.tasks[t]);
    case Claiming(_) => LocalProgress(s, s', p, t, s'.tasks[t]);
    case Publishing(_, _, _) => LocalProgress(s, s', p, t, s'.tasks[t]);
  }
}

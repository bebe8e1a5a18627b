/** parallel_partition as its callers see it. */
module ParallelPartition {
  import opened Tally
  import opened PartitionProtocol
  import opened PartitionInvariant
  import opened PartitionSteps
  import opened PartitionRuns
  import opened PartitionProgress
  import opened PartitionFinish

  /**
    Runs the workers under a scheduler that picks any task that can run, as long as it likes, then
    the final callback. The result is the same kind of partition for every choice of the scheduler,
    and no sequence of choices goes on for ever.
   */
  method Partition<T>(a: array<T>, p: T -> bool, threadNum: int) returns (res: int)
    requires Fits(a.Length, threadNum)
    modifies a
    ensures Partitioned(a[..], p, res) && multiset(a[..]) == multiset(old(a[..]))
    ensures res == CountTrue(old(a[..]), p, 0, a.Length)
  {
    hide Inv, Bounded, Fits, Safe, Exact, SplitsLeft, Unplaced, Misplaced, Work, Step;
    if a.Length == 0 { return a.Length; }
    var s := Start(a[..], threadNum);
    ghost var threads := InitialThreads(a.Length, threadNum);
    StartOk(a[..], p, threadNum);
    FitsIsBounded(a.Length, threadNum);
    while !Finished(s)
      invariant Inv(s, p, threads) && |s.arr| == a.Length && Bounded(|s.arr|, s.blockSize, threads)
      invariant Rearranged(s.arr, old(a[..]), p)
      invariant a[..] == old(a[..])
      decreases SplitsLeft(s), Unplaced(s), Misplaced(s, p), Work(s)
    {
      NeverStuck(s, p, threads);
      var t: nat :| t < |s.tasks| && Enabled(s, t);
      SizeFits(s, p, threads, t);
      StepKeeps(s, p, threads, t);
      StepProgress(s, p, threads, t);
      MeasureBounded(s, p, threads);
      StepRearranges(s, p, threads, t);
      s := Step(s, p, t);
      MeasureBounded(s, p, threads);
    }
    FinishedState(s, p, threads);
    forall i | 0 <= i < a.Length {
      a[i] := s.arr[i];
    }
    assert a[..] == s.arr;
    res := FinishPartition(a, p, s.tasks[0].lDone, s.tasks[0].rDone, s.lmove, s.rtrue);
  }

  lemma StepRearranges<T>(s: State<T>, p: T -> bool, threads: int, t: nat)
    requires Inv(s, p, threads) && Enabled(s, t) && Safe(s, t)
    ensures Rearranged(Step(s, p, t).arr, s.arr, p)
  {
    StepPermutes(s, p, t);
    assert TaskOk(s.arr, s.size, p, s.tasks[t]);
    match s.tasks[t]
    case Scanning(b, Compare) =>
      if b.lbs != b.lbe && b.rbs != b.rbe {
        assert OwnsLeft(s.tasks[t], b.lbs) && OwnsRight(s.tasks[t], b.rbs);
        CountTrueSwap(s.arr, p, 0, |s.arr|, b.lbs, b.rbs);
      }
    case Merging(r, Compare) =>
      if r.lbs != r.lbe && r.rbs != r.rbe {
        assert OwnsLeft(s.tasks[t], r.lbs) && OwnsRight(s.tasks[t], r.rbs);
        CountTrueSwap(s.arr, p, 0, |s.arr|, r.lbs, r.rbs);
      }
    case _ =>
  }
}

/**
  The concurrent part of parallel_partition: a growing set of tasks that share one range and five
  atomic counters. Every constructor of Task is a point at which a task can be preempted; Step runs
  one task from one such point to the next. A step performs at most one access to an atomic counter,
  or works on elements that belong to the task alone.
 */
module PartitionProtocol {
  import opened Tally

  /** A half-open interval of positions, as the rest lists hold them. */
  datatype Interval = Interval(lo: int, hi: int)

  /**
    The local variables of part_parallel. The left block is [lbs, lbe) and is scanned upwards;
    the right block is (rbe, rbs] and is scanned downwards; found is myrtrue.
   */
  datatype Blocks = Blocks(lbs: int, lbe: int, rbs: int, rbe: int, found: int)

  /** The local variables of the merge callback. Both blocks are [s, e) and are scanned upwards. */
  datatype Rests = Rests(lRest: seq<Interval>, rRest: seq<Interval>, lbs: int, lbe: int, rbs: int, rbe: int)

  datatype Phase = ScanLeft | ScanRight | Compare

  datatype Task =
    | Ready                                                     // posted, not started
    | Entered(threadsLeft: int)                                 // has taken a token from m_open_threads
    | Leaving(threadsLeft: int)                                 // will work itself, still holds the token
    | Testing(b: Blocks)                                        // before reading m_size
    | Claiming(b: Blocks)                                       // before m_size.fetch_sub
    | Placing(b: Blocks, mySize: int)                           // before m_lmove.fetch_add or m_rmove.fetch_sub
    | Scanning(b: Blocks, phase: Phase)
    | Counting(b: Blocks)                                       // counting what is left in the open block
    | Publishing(found: int, lDone: seq<Interval>, rDone: seq<Interval>)  // before m_rtrue +=
    | Waiting(left: nat, right: nat)                            // has posted two subtasks
    | Pairing(rests: Rests)                                     // at the head of the merge loop
    | Merging(rests: Rests, phase: Phase)
    | Done(lDone: seq<Interval>, rDone: seq<Interval>)
    | Joined                                                    // result moved into the parent

  /** The range, the constant block size, the five counters and the tasks. */
  datatype State<T> = State(arr: seq<T>, blockSize: int,
                            open: int, size: int, lmove: int, rmove: int, rtrue: int,
                            tasks: seq<Task>)

  /** Conversion to a 32-bit signed integer. */
  function ToInt32(x: int): int {
    var m := x % 0x1_0000_0000;
    if m < 0x8000_0000 then m else m - 0x1_0000_0000
  }

  /** The tokens the shared data starts with. */
  function InitialThreads(n: nat, threadNum: int): int {
    var threads := ToInt32(threadNum);
    if n < 10000 || threads < 1 || threads > n then 1 else threads
  }

  /** The distance is converted to an int first; a negative one divided by 1000 is not above 1000 either. */
  function BlockSizeFor(n: nat): int {
    var distance := ToInt32(n);
    if distance > 0 && distance / 1000 > 1000 then distance / 1000 else 1000
  }

  function Start<T>(input: seq<T>, threadNum: int): State<T> {
    State(input, BlockSizeFor(|input|), InitialThreads(|input|, threadNum), |input|, 0, |input|, 0, [Ready])
  }

  predicate Enabled<T>(s: State<T>, t: nat) {
    t < |s.tasks| && match s.tasks[t]
      case Done(_, _) => false
      case Joined => false
      case Waiting(c1, c2) => c1 < |s.tasks| && c2 < |s.tasks| && s.tasks[c1].Done? && s.tasks[c2].Done?
      case _ => true
  }

  /** The root task has returned, so the final callback runs. */
  predicate Finished<T>(s: State<T>) {
    |s.tasks| > 0 && s.tasks[0].Done?
  }

  function SetTask<T>(s: State<T>, t: nat, task: Task): State<T>
    requires t < |s.tasks|
  {
    s.(tasks := s.tasks[t := task])
  }

  predicate InBounds<T>(s: State<T>, i: int) {
    0 <= i < |s.arr|
  }

  /** The elements task t reads or writes in its next step are inside the range. */
  predicate Safe<T>(s: State<T>, t: nat)
    requires t < |s.tasks|
  {
    match s.tasks[t]
    case Scanning(b, phase) =>
      && (phase.ScanLeft? && b.lbs != b.lbe ==> InBounds(s, b.lbs))
      && (phase.ScanRight? && b.rbs != b.rbe ==> InBounds(s, b.rbs))
      && (phase.Compare? && b.lbs != b.lbe && b.rbs != b.rbe ==> InBounds(s, b.lbs) && InBounds(s, b.rbs))
    case Counting(b) =>
      && (b.lbs < b.lbe ==> 0 <= b.lbs && b.lbe <= |s.arr|)
      && (b.rbe < b.rbs ==> -1 <= b.rbe && b.rbs < |s.arr|)
    case Merging(r, phase) =>
      && (phase.ScanLeft? && r.lbs != r.lbe ==> InBounds(s, r.lbs))
      && (phase.ScanRight? && r.rbs != r.rbe ==> InBounds(s, r.rbs))
      && (phase.Compare? && r.lbs != r.lbe && r.rbs != r.rbe ==> InBounds(s, r.lbs) && InBounds(s, r.rbs))
    case _ => true
  }

  /** Two subtasks are posted. */
  function Split<T>(s: State<T>, t: nat): State<T>
    requires t < |s.tasks|
  {
    var n := |s.tasks|;
    s.(tasks := s.tasks[t := Waiting(n, n + 1)] + [Ready] + [Ready])
  }

  /** Entered: work alone when there is no token or nothing is left, otherwise post two subtasks. */
  function Decide<T>(s: State<T>, t: nat, threadsLeft: int): State<T>
    requires t < |s.tasks|
  {
    if threadsLeft < 1 || s.size < 0 then SetTask(s, t, Leaving(threadsLeft)) else Split(s, t)
  }

  /** No conversion to int in the next step of task t loses anything. */
  predicate Exact<T>(s: State<T>, t: nat)
    requires t < |s.tasks|
  {
    && (s.tasks[t].Claiming? ==> ToInt32(s.size) == s.size)
    && (s.tasks[t].Placing? ==> ToInt32(s.lmove) == s.lmove && ToInt32(s.rmove) == s.rmove)
  }

  /** Claiming: take a block's worth from m_size; the result is stored in a 32-bit int. */
  function Claim<T>(s: State<T>, t: nat, b: Blocks): State<T>
    requires t < |s.tasks|
  {
    var mySize := ToInt32(s.size);
    var s' := s.(size := s.size - s.blockSize);
    if mySize <= 0 then SetTask(s', t, Counting(b))
    else SetTask(s', t, Placing(b, if mySize > s.blockSize then s.blockSize else mySize))
  }

  /**
    Placing: the claimed block comes from the left end when the left block is used up, else from the
    right end; where it starts is stored in a 32-bit int.
   */
  function Place<T>(s: State<T>, t: nat, b: Blocks, mySize: int): State<T>
    requires t < |s.tasks|
  {
    if b.lbs == b.lbe then
      var start := ToInt32(s.lmove);
      SetTask(s, t, Scanning(b.(lbs := start, lbe := start + mySize), ScanLeft)).(lmove := s.lmove + mySize)
    else
      var start := ToInt32(s.rmove);
      SetTask(s, t, Scanning(b.(rbs := start - 1, rbe := start - mySize - 1), ScanLeft)).(rmove := s.rmove - mySize)
  }

  function Scan<T>(s: State<T>, p: T -> bool, t: nat, b: Blocks, phase: Phase): State<T>
    requires t < |s.tasks| && s.tasks[t] == Scanning(b, phase) && Safe(s, t)
  {
    match phase
    case ScanLeft =>
      if b.lbs != b.lbe && p(s.arr[b.lbs]) then
        SetTask(s, t, Scanning(b.(lbs := b.lbs + 1, found := b.found + 1), ScanLeft))
      else SetTask(s, t, Scanning(b, ScanRight))
    case ScanRight =>
      if b.rbs != b.rbe && !p(s.arr[b.rbs]) then SetTask(s, t, Scanning(b.(rbs := b.rbs - 1), ScanRight))
      else SetTask(s, t, Scanning(b, Compare))
    case Compare =>
      if b.lbs == b.lbe || b.rbs == b.rbe then SetTask(s, t, Testing(b))
      else SetTask(s, t, Scanning(b, ScanLeft)).(arr := Swap(s.arr, b.lbs, b.rbs))
  }

  /** Counting: the unfinished part of the open block becomes a rest, and its true elements are counted. */
  function Count<T>(s: State<T>, p: T -> bool, t: nat, b: Blocks): State<T>
    requires t < |s.tasks|
  {
    SetTask(s, t, Publishing(
      b.found + CountTrue(s.arr, p, b.lbs, b.lbe) + CountTrue(s.arr, p, b.rbe + 1, b.rbs + 1),
      if b.lbs != b.lbe then [Interval(b.lbs, b.lbe)] else [],
      if b.rbs != b.rbe then [Interval(b.rbe + 1, b.rbs + 1)] else []))
  }

  /** Waiting: the rest lists of both subtasks are spliced together. */
  function Join<T>(s: State<T>, t: nat, c1: nat, c2: nat): State<T>
    requires t < |s.tasks| && c1 < |s.tasks| && c2 < |s.tasks| && s.tasks[c1].Done? && s.tasks[c2].Done?
  {
    var n := |s.arr|;
    var rests := Rests(s.tasks[c1].lDone + s.tasks[c2].lDone, s.tasks[c1].rDone + s.tasks[c2].rDone, 0, 0, n, n);
    s.(tasks := s.tasks[t := Pairing(rests)][c1 := Joined][c2 := Joined])
  }

  /** One turn of the merge loop's head: refill an empty side from its list. */
  function Refill(r: Rests): Rests
    requires r.rRest != [] || r.rbs != r.rbe
    requires r.lRest != [] || r.lbs != r.lbe
  {
    var r1 := if r.rbs == r.rbe then r.(rbs := r.rRest[0].lo, rbe := r.rRest[0].hi, rRest := r.rRest[1..]) else r;
    if r1.lbs == r1.lbe then r1.(lbs := r1.lRest[0].lo, lbe := r1.lRest[0].hi, lRest := r1.lRest[1..]) else r1
  }

  function Pair<T>(s: State<T>, t: nat, r: Rests): State<T>
    requires t < |s.tasks|
  {
    if (r.rRest != [] || r.rbs != r.rbe) && (r.lRest != [] || r.lbs != r.lbe) then
      SetTask(s, t, Merging(Refill(r), ScanLeft))
    else
      SetTask(s, t, Done(r.lRest + (if r.lbs != r.lbe then [Interval(r.lbs, r.lbe)] else []),
                         r.rRest + (if r.rbs != r.rbe then [Interval(r.rbs, r.rbe)] else [])))
  }

  function Merge<T>(s: State<T>, p: T -> bool, t: nat, r: Rests, phase: Phase): State<T>
    requires t < |s.tasks| && s.tasks[t] == Merging(r, phase) && Safe(s, t)
  {
    match phase
    case ScanLeft =>
      if r.lbs != r.lbe && p(s.arr[r.lbs]) then SetTask(s, t, Merging(r.(lbs := r.lbs + 1), ScanLeft))
      else SetTask(s, t, Merging(r, ScanRight))
    case ScanRight =>
      if r.rbs != r.rbe && !p(s.arr[r.rbs]) then SetTask(s, t, Merging(r.(rbs := r.rbs + 1), ScanRight))
      else SetTask(s, t, Merging(r, Compare))
    case Compare =>
      if r.lbs == r.lbe || r.rbs == r.rbe then SetTask(s, t, Pairing(r))
      else SetTask(s, t, Merging(r, ScanLeft)).(arr := Swap(s.arr, r.lbs, r.rbs))
  }

  /** Task t runs to its next preemption point. */
  function Step<T>(s: State<T>, p: T -> bool, t: nat): State<T>
    requires Enabled(s, t) && Safe(s, t)
  {
    match s.tasks[t]
    case Ready => SetTask(s, t, Entered(s.open)).(open := s.open - 1)
    case Entered(threadsLeft) => Decide(s, t, threadsLeft)
    case Leaving(threadsLeft) =>
      SetTask(s, t, Testing(Blocks(0, 0, |s.arr|, |s.arr|, 0))).(open := s.open + 1)
    case Testing(b) => SetTask(s, t, if s.size > 0 then Claiming(b) else Counting(b))
    case Claiming(b) => Claim(s, t, b)
    case Placing(b, mySize) => Place(s, t, b, mySize)
    case Scanning(b, phase) => Scan(s, p, t, b, phase)
    case Counting(b) => Count(s, p, t, b)
    case Publishing(found, l, r) => SetTask(s, t, Done(l, r)).(rtrue := s.rtrue + found)
    case Waiting(c1, c2) => Join(s, t, c1, c2)
    case Pairing(r) => Pair(s, t, r)
    case Merging(r, phase) => Merge(s, p, t, r, phase)
  }
}

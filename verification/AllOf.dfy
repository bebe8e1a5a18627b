/**
  all_of: the callbacks of n continuations each fill a slot and decrement a counter; whoever brings it
  to zero publishes the slots, and whoever fails publishes its exception at once.
 */
module AllOf {
  import opened Tally
  import opened Expected

  datatype Pc =
    | Start
    | Counting      // has filled its slot
    | SettingValue  // has brought the counter to zero
    | Finished

  datatype Callback<T, E> = Callback(result: Expected<T, E>, pc: Pc)

  /** The shared counter object, and every call of set_value and set_exception so far. */
  datatype State<T, E> = State(callbacks: seq<Callback<T, E>>, values: seq<Slot<T>>, taskCount: int,
                               valuesSet: seq<seq<Slot<T>>>, exceptionsSet: seq<E>)

  function Init<T, E>(results: seq<Expected<T, E>>): State<T, E> {
    State(seq(|results|, i requires 0 <= i < |results| => Callback(results[i], Start)),
          seq(|results|, i => Unset), |results|, [], [])
  }

  predicate Enabled<T, E>(s: State<T, E>, i: nat) {
    i < |s.callbacks| && !s.callbacks[i].pc.Finished?
  }

  predicate Complete<T, E>(s: State<T, E>) {
    forall i | 0 <= i < |s.callbacks| :: s.callbacks[i].pc.Finished?
  }

  function Goto<T, E>(s: State<T, E>, i: nat, pc: Pc): State<T, E>
    requires i < |s.callbacks|
  {
    s.(callbacks := s.callbacks[i := s.callbacks[i].(pc := pc)])
  }

  /** What a success puts into its slot; a continuation without a value puts a wrapper there. */
  function Filled<T, E>(result: Expected<T, E>): Slot<T> {
    match result
    case Value(v) => Held(v)
    case Void => Wrapper
    case Failure(_) => Unset
  }

  /** One step of callback i. */
  function Step<T, E>(s: State<T, E>, i: nat): State<T, E>
    requires Enabled(s, i) && |s.values| == |s.callbacks|
  {
    var result := s.callbacks[i].result;
    match s.callbacks[i].pc
    case Start =>
      if result.Failure? then Goto(s, i, Finished).(exceptionsSet := s.exceptionsSet + [result.error])
      else Goto(s, i, Counting).(values := s.values[i := Filled(result)])
    case Counting => Goto(s, i, if s.taskCount - 1 == 0 then SettingValue else Finished).(taskCount := s.taskCount - 1)
    case SettingValue => Goto(s, i, Finished).(valuesSet := s.valuesSet + [s.values])
  }

  // ----- What every state keeps -----

  function Counted<T, E>(c: Callback<T, E>): int {
    if !c.result.Failure? && (c.pc.SettingValue? || c.pc.Finished?) then 1 else 0
  }

  function Publishing<T, E>(c: Callback<T, E>): int {
    if c.pc.SettingValue? then 1 else 0
  }

  ghost predicate AllFilled<T, E>(callbacks: seq<Callback<T, E>>, values: seq<Slot<T>>) {
    && |values| == |callbacks|
    && forall i :: 0 <= i < |callbacks| ==> !callbacks[i].result.Failure? && values[i] == Filled(callbacks[i].result)
  }

  ghost function RaisedBy<T, E>(c: Callback<T, E>): multiset<E> {
    if c.result.Failure? && c.pc.Finished? then multiset{c.result.error} else multiset{}
  }

  /** The exceptions of the callbacks that have failed so far. */
  ghost function Raised<T, E>(callbacks: seq<Callback<T, E>>): multiset<E> {
    if callbacks == [] then multiset{}
    else Raised(callbacks[..|callbacks| - 1]) + RaisedBy(callbacks[|callbacks| - 1])
  }

  ghost predicate Inv<T, E>(s: State<T, E>) {
    && |s.values| == |s.callbacks|
    && (forall i :: 0 <= i < |s.callbacks| && s.callbacks[i].result.Failure? ==> s.callbacks[i].pc.Start? || s.callbacks[i].pc.Finished?)
    && (forall i :: 0 <= i < |s.callbacks| ==> s.values[i] == if s.callbacks[i].pc.Start? then Unset else Filled(s.callbacks[i].result))
    && s.taskCount == |s.callbacks| - SumOver(s.callbacks, Counted)
    && (|s.callbacks| > 0 ==> SumOver(s.callbacks, Publishing) + |s.valuesSet| == if s.taskCount == 0 then 1 else 0)
    && (|s.callbacks| == 0 ==> s.valuesSet == [])
    && (forall k :: 0 <= k < |s.valuesSet| ==> AllFilled(s.callbacks, s.valuesSet[k]))
    && multiset(s.exceptionsSet) == Raised(s.callbacks)
  }

  lemma {:induction false} NothingRaised<T, E>(callbacks: seq<Callback<T, E>>)
    requires forall i :: 0 <= i < |callbacks| ==> !callbacks[i].pc.Finished?
    ensures Raised(callbacks) == multiset{}
  {
    if callbacks != [] {
      NothingRaised(callbacks[..|callbacks| - 1]);
    }
  }

  lemma {:induction false} RaisedUpdate<T, E>(callbacks: seq<Callback<T, E>>, i: int, c: Callback<T, E>)
    requires 0 <= i < |callbacks| && RaisedBy(callbacks[i]) == multiset{}
    ensures Raised(callbacks[i := c]) == Raised(callbacks) + RaisedBy(c)
  {
    hide RaisedBy;
    var n := |callbacks| - 1;
    if i == n {
      assert callbacks[i := c][..n] == callbacks[..n];
    } else {
      assert callbacks[i := c][..n] == callbacks[..n][i := c];
      RaisedUpdate(callbacks[..n], i, c);
      SwapLast(Raised(callbacks[..n]), RaisedBy(c), RaisedBy(callbacks[n]));
    }
  }

  lemma InitOk<T, E>(results: seq<Expected<T, E>>)
    ensures Inv(Init(results)) && HasResults(Init(results), results)
  {
    var s := Init(results);
    SumZero(s.callbacks, Counted);
    SumZero(s.callbacks, Publishing);
    NothingRaised(s.callbacks);
  }

  /** When the counter reaches zero, every callback has succeeded and its slot is filled. */
  lemma LastSuccess<T, E>(s: State<T, E>)
    requires Inv(s) && s.taskCount == 0
    ensures AllFilled(s.callbacks, s.values)
  {
    SumFull(s.callbacks, Counted);
    forall i | 0 <= i < |s.callbacks|
      ensures !s.callbacks[i].result.Failure? && s.values[i] == Filled(s.callbacks[i].result)
    {
      assert Counted(s.callbacks[i]) == 1;
    }
  }

  lemma StepKeepsSlots<T, E>(s: State<T, E>, i: nat)
    requires Enabled(s, i) && |s.values| == |s.callbacks|
    requires forall j :: 0 <= j < |s.callbacks| ==> s.values[j] == if s.callbacks[j].pc.Start? then Unset else Filled(s.callbacks[j].result)
    ensures var s' := Step(s, i);
            forall j :: 0 <= j < |s.callbacks| ==> s'.values[j] == if s'.callbacks[j].pc.Start? then Unset else Filled(s'.callbacks[j].result)
  {
  }

  lemma SameSlots<T, E>(s: State<T, E>, i: nat, values: seq<Slot<T>>)
    requires Enabled(s, i) && |s.values| == |s.callbacks| && AllFilled(s.callbacks, values)
    ensures AllFilled(Step(s, i).callbacks, values)
  {
  }

  /** Main invariant: every step of every callback keeps it. */
  lemma StepKeeps<T, E>(s: State<T, E>, i: nat)
    requires Inv(s) && Enabled(s, i)
    ensures Inv(Step(s, i))
  {
    hide SumOver, AllFilled, Raised, RaisedBy;
    var s' := Step(s, i);
    StepKeepsSlots(s, i);
    StepKeepsCounts(s, i);
    StepKeepsRaised(s, i);
    if s.callbacks[i].pc.SettingValue? {
      SumNonNegative(s.callbacks, Publishing);
      LastSuccess(s);
      SameSlots(s, i, s.values);
    }
    forall k | 0 <= k < |s.valuesSet|
      ensures AllFilled(s'.callbacks, s.valuesSet[k])
    {
      SameSlots(s, i, s.valuesSet[k]);
    }
  }

  lemma StepKeepsCounts<T, E>(s: State<T, E>, i: nat)
    requires Inv(s) && Enabled(s, i)
    ensures var s' := Step(s, i);
            && s'.taskCount == |s'.callbacks| - SumOver(s'.callbacks, Counted)
            && SumOver(s'.callbacks, Publishing) + |s'.valuesSet| == if s'.taskCount == 0 then 1 else 0
  {
    hide SumOver, AllFilled, Raised;
    var s' := Step(s, i);
    SumUpdate(s.callbacks, Counted, i, s'.callbacks[i]);
    SumUpdate(s.callbacks, Publishing, i, s'.callbacks[i]);
    SumNonNegative(s.callbacks, Publishing);
    SumFull(s'.callbacks, Counted);
  }

  lemma StepKeepsRaised<T, E>(s: State<T, E>, i: nat)
    requires Inv(s) && Enabled(s, i)
    ensures multiset(Step(s, i).exceptionsSet) == Raised(Step(s, i).callbacks)
  {
    hide SumOver, AllFilled, Raised;
    RaisedUpdate(s.callbacks, i, Step(s, i).callbacks[i]);
  }

  // ----- Runs -----

  /** Every schedule of steps is a run. */
  ghost predicate IsRun<T, E>(s: State<T, E>, schedule: seq<nat>)
    requires |s.values| == |s.callbacks|
    decreases |schedule|
  {
    schedule != [] ==> Enabled(s, schedule[0]) && IsRun(Step(s, schedule[0]), schedule[1..])
  }

  ghost function After<T, E>(s: State<T, E>, schedule: seq<nat>): State<T, E>
    requires |s.values| == |s.callbacks| && IsRun(s, schedule)
    decreases |schedule|
  {
    if schedule == [] then s else After(Step(s, schedule[0]), schedule[1..])
  }

  ghost predicate HasResults<T, E>(s: State<T, E>, results: seq<Expected<T, E>>) {
    |s.callbacks| == |results| && forall i :: 0 <= i < |results| ==> s.callbacks[i].result == results[i]
  }

  lemma {:induction false} RunKeeps<T, E>(s: State<T, E>, results: seq<Expected<T, E>>, schedule: seq<nat>)
    requires Inv(s) && HasResults(s, results) && IsRun(s, schedule)
    ensures Inv(After(s, schedule)) && HasResults(After(s, schedule), results)
    decreases |schedule|
  {
    if schedule != [] {
      hide Inv, Step;
      StepKeeps(s, schedule[0]);
      StepKeepsResults(s, results, schedule[0]);
      RunKeeps(Step(s, schedule[0]), results, schedule[1..]);
    }
  }

  lemma StepKeepsResults<T, E>(s: State<T, E>, results: seq<Expected<T, E>>, i: nat)
    requires HasResults(s, results) && Enabled(s, i) && |s.values| == |s.callbacks|
    ensures HasResults(Step(s, i), results) && |Step(s, i).values| == |Step(s, i).callbacks|
  {
  }

  ghost predicate AllSucceed<T, E>(results: seq<Expected<T, E>>) {
    forall i :: 0 <= i < |results| ==> !results[i].Failure?
  }

  function Slots<T, E>(results: seq<Expected<T, E>>): seq<Slot<T>> {
    seq(|results|, i requires 0 <= i < |results| => Filled(results[i]))
  }

  ghost function Failures<T, E>(results: seq<Expected<T, E>>): multiset<E> {
    if results == [] then multiset{}
    else Failures(results[..|results| - 1])
         + (if results[|results| - 1].Failure? then multiset{results[|results| - 1].error} else multiset{})
  }

  /** Even before the end: a value is set at most once, only if every callback succeeds, and with every slot filled. */
  lemma ValueMeansSuccess<T, E>(s: State<T, E>, results: seq<Expected<T, E>>)
    requires Inv(s) && HasResults(s, results)
    ensures |s.valuesSet| <= 1
    ensures s.valuesSet != [] ==> AllSucceed(results) && s.valuesSet[0] == Slots(results)
    ensures s.valuesSet != [] ==>
              && |s.valuesSet[0]| == |results|
              && forall i :: 0 <= i < |results| ==>
                   && (results[i].Value? ==> s.valuesSet[0][i] == Held(results[i].value))
                   && (results[i].Void? ==> s.valuesSet[0][i] == Wrapper)
  {
    SumNonNegative(s.callbacks, Publishing);
    if s.valuesSet != [] {
      assert AllFilled(s.callbacks, s.valuesSet[0]);
      assert forall i :: 0 <= i < |results| ==> s.callbacks[i].result == results[i];
      assert s.valuesSet[0] == Slots(results);
    }
  }

  lemma {:induction false} RaisedAll<T, E>(callbacks: seq<Callback<T, E>>, results: seq<Expected<T, E>>)
    requires |callbacks| == |results|
    requires forall i :: 0 <= i < |results| ==> callbacks[i].result == results[i] && callbacks[i].pc.Finished?
    ensures Raised(callbacks) == Failures(results)
    decreases |results|
  {
    if results != [] {
      RaisedAll(callbacks[..|callbacks| - 1], results[..|results| - 1]);
    }
  }

  lemma CompleteState<T, E>(s: State<T, E>, results: seq<Expected<T, E>>)
    requires Inv(s) && HasResults(s, results) && Complete(s)
    ensures s.valuesSet == if results != [] && AllSucceed(results) then [Slots(results)] else []
    ensures multiset(s.exceptionsSet) == Failures(results)
  {
    RaisedAll(s.callbacks, results);
    ValueMeansSuccess(s, results);
    SumFull(s.callbacks, Counted);
    SumZero(s.callbacks, Publishing);
    if results != [] && AllSucceed(results) {
      assert forall i :: 0 <= i < |s.callbacks| ==> Counted(s.callbacks[i]) == 1;
    }
  }

  /** The errors of the failing callbacks in the order in which the schedule names them; each of them takes one step only. */
  ghost function ErrorsAlong<T, E>(results: seq<Expected<T, E>>, schedule: seq<nat>): seq<E> {
    if schedule == [] then []
    else if schedule[0] < |results| && results[schedule[0]].Failure? then [results[schedule[0]].error] + ErrorsAlong(results, schedule[1..])
    else ErrorsAlong(results, schedule[1..])
  }

  lemma StepRaises<T, E>(s: State<T, E>, results: seq<Expected<T, E>>, i: nat)
    requires Inv(s) && HasResults(s, results) && Enabled(s, i)
    ensures |results| == |s.callbacks| == |s.values| && i < |results|
    ensures results[i].Failure? ==> Step(s, i).exceptionsSet == s.exceptionsSet + [results[i].error]
    ensures !results[i].Failure? ==> Step(s, i).exceptionsSet == s.exceptionsSet
  {
    assert s.callbacks[i].result == results[i];
  }

  lemma {:induction false} ErrorsInOrder<T, E>(s: State<T, E>, results: seq<Expected<T, E>>, schedule: seq<nat>)
    requires Inv(s) && HasResults(s, results) && IsRun(s, schedule)
    ensures After(s, schedule).exceptionsSet == s.exceptionsSet + ErrorsAlong(results, schedule)
    decreases |schedule|
  {
    hide Inv, Step, HasResults, Enabled;
    if schedule != [] {
      var i := schedule[0];
      StepKeeps(s, i);
      StepRaises(s, results, i);
      StepKeepsResults(s, results, i);
      ErrorsInOrder(Step(s, i), results, schedule[1..]);
      if results[i].Failure? {
        AppendsTwice(s.exceptionsSet, [results[i].error], ErrorsAlong(results, schedule[1..]));
      }
    }
  }

  lemma AppendsTwice<E>(a: seq<E>, b: seq<E>, c: seq<E>)
    ensures (a + b) + c == a + (b + c)
  {
  }

  lemma {:induction false} SomeFailure<T, E>(results: seq<Expected<T, E>>)
    ensures Failures(results) == multiset{} <==> AllSucceed(results)
  {
    if results != [] {
      var n := |results| - 1;
      SomeFailure(results[..n]);
      assert AllSucceed(results) <==> AllSucceed(results[..n]) && !results[n].Failure?;
    }
  }

  /**
    Main result, over every interleaving: a value is set exactly once iff all of at least one callbacks
    succeed, and it holds what each of them returned; an exception is set once for each callback that fails,
    so more than once when several fail, in the order in which they do; and nothing is ever set exactly when
    there is no callback at all.
   */
  lemma EveryRunCompletes<T, E>(results: seq<Expected<T, E>>, schedule: seq<nat>)
    requires IsRun(Init(results), schedule) && Complete(After(Init(results), schedule))
    ensures var s := After(Init(results), schedule);
            && s.valuesSet == (if results != [] && AllSucceed(results) then [Slots(results)] else [])
            && multiset(s.exceptionsSet) == Failures(results)
            && s.exceptionsSet == ErrorsAlong(results, schedule)
            && (s.valuesSet == [] && s.exceptionsSet == [] <==> results == [])
    ensures var s := After(Init(results), schedule);
            s.valuesSet != [] ==>
              && |s.valuesSet[0]| == |results|
              && forall i :: 0 <= i < |results| ==>
                   && (results[i].Value? ==> s.valuesSet[0][i] == Held(results[i].value))
                   && (results[i].Void? ==> s.valuesSet[0][i] == Wrapper)
  {
    InitOk(results);
    RunKeeps(Init(results), results, schedule);
    var s := After(Init(results), schedule);
    CompleteState(s, results);
    ValueMeansSuccess(s, results);
    ErrorsInOrder(Init(results), results, schedule);
    assert [] + ErrorsAlong(results, schedule) == ErrorsAlong(results, schedule);
    SomeFailure(results);
    assert |multiset(s.exceptionsSet)| == |s.exceptionsSet|;
  }

  // ----- Every schedule ends -----

  function CallbackRank<T, E>(c: Callback<T, E>): int {
    match c.pc case Start => 3 case Counting => 2 case SettingValue => 1 case Finished => 0
  }

  ghost function StepsLeft<T, E>(s: State<T, E>): int {
    SumOver(s.callbacks, CallbackRank)
  }

  lemma StepProgress<T, E>(s: State<T, E>, i: nat)
    requires Enabled(s, i) && |s.values| == |s.callbacks|
    ensures 0 <= StepsLeft(Step(s, i)) < StepsLeft(s)
  {
    SumUpdate(s.callbacks, CallbackRank, i, Step(s, i).callbacks[i]);
    SumNonNegative(Step(s, i).callbacks, CallbackRank);
  }

  /** Runs the callbacks under an arbitrary scheduler until all of them are through. */
  method Execute<T, E>(results: seq<Expected<T, E>>) returns (s: State<T, E>, ghost schedule: seq<nat>)
    ensures IsRun(Init(results), schedule) && s == After(Init(results), schedule) && Complete(s)
    ensures |s.valuesSet| == if results != [] && AllSucceed(results) then 1 else 0
    ensures s.valuesSet != [] ==>
              && |s.valuesSet[0]| == |results|
              && forall i :: 0 <= i < |results| ==>
                   && (results[i].Value? ==> s.valuesSet[0][i] == Held(results[i].value))
                   && (results[i].Void? ==> s.valuesSet[0][i] == Wrapper)
    ensures multiset(s.exceptionsSet) == Failures(results) && s.exceptionsSet == ErrorsAlong(results, schedule)
  {
    hide Inv, StepsLeft, AllSucceed, Step, HasResults, IsRun, After;
    s := Init(results);
    schedule := [];
    NoSteps(s);
    InitOk(results);
    while !Complete(s)
      invariant Inv(s) && HasResults(s, results) && |s.values| == |s.callbacks|
      invariant IsRun(Init(results), schedule) && s == After(Init(results), schedule)
      decreases StepsLeft(s)
    {
      var i :| 0 <= i < |s.callbacks| && !s.callbacks[i].pc.Finished?;
      StepKeeps(s, i);
      StepProgress(s, i);
      StepKeepsResults(s, results, i);
      RunExtends(Init(results), schedule, i);
      schedule := schedule + [i];
      s := Step(s, i);
    }
    CompleteState(s, results);
    EveryRunCompletes(results, schedule);
  }

  lemma NoSteps<T, E>(s: State<T, E>)
    requires |s.values| == |s.callbacks|
    ensures IsRun(s, []) && After(s, []) == s
  {
  }

  lemma {:induction false} RunExtends<T, E>(s: State<T, E>, schedule: seq<nat>, i: nat)
    requires |s.values| == |s.callbacks| && IsRun(s, schedule) && Enabled(After(s, schedule), i)
    requires |After(s, schedule).values| == |After(s, schedule).callbacks|
    ensures IsRun(s, schedule + [i]) && After(s, schedule + [i]) == Step(After(s, schedule), i)
    decreases |schedule|
  {
    if schedule == [] {
      assert (schedule + [i])[1..] == [];
    } else {
      assert (schedule + [i])[1..] == schedule[1..] + [i];
      RunExtends(Step(s, schedule[0]), schedule[1..], i);
    }
  }
}

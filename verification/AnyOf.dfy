/**
  any_of: the callbacks of n continuations share a flag, a result and a counter of failures. Every
  program counter below is a point at which a callback can be preempted; a step performs one access
  to shared memory.
 */
module AnyOf {
  import opened Tally
  import opened Expected

  datatype Pc =
    | Start
    | WritingIndex      // has won the flag
    | WritingValue
    | SettingValue      // before task_res.set_value
    | Counting          // has stored its exception
    | SettingException  // before task_res.set_exception
    | Finished

  datatype Callback<T, E> = Callback(result: Expected<T, E>, pc: Pc)

  /**
    The shared counter object, every call of set_value and set_exception so far, and a history
    variable: winner is the callback that found the flag clear, or -1.
   */
  datatype State<T, E> = State(callbacks: seq<Callback<T, E>>,
                               hasValue: bool, index: int, value: Slot<T>,
                               exceptions: seq<Slot<E>>, failuresRemaining: int,
                               valuesSet: seq<(int, Slot<T>)>, exceptionsSet: seq<seq<Slot<E>>>,
                               winner: int)

  /** All callbacks are about to start; the flag is a parameter because the source leaves it default-initialised. */
  function Init<T, E>(results: seq<Expected<T, E>>, flag: bool): State<T, E> {
    State(seq(|results|, i requires 0 <= i < |results| => Callback(results[i], Start)),
          flag, 0xFFFF_FFFF_FFFF_FFFF, Unset,
          seq(|results|, i => Unset), |results|, [], [], -1)
  }

  predicate Enabled<T, E>(s: State<T, E>, i: nat) {
    i < |s.callbacks| && !s.callbacks[i].pc.Finished?
  }

  predicate Complete<T, E>(s: State<T, E>) {
    forall i | 0 <= i < |s.callbacks| :: s.callbacks[i].pc.Finished?
  }

  function Goto<T, E>(s: State<T, E>, i: nat, pc: Pc): State<T, E>
    requires i < |s.callbacks|
  {
    s.(callbacks := s.callbacks[i := s.callbacks[i].(pc := pc)])
  }

  /** One step of callback i. */
  function Step<T, E>(s: State<T, E>, i: nat): State<T, E>
    requires Enabled(s, i) && |s.exceptions| == |s.callbacks|
  {
    var result := s.callbacks[i].result;
    match s.callbacks[i].pc
    case Start =>
      if result.Failure? then Goto(s, i, Counting).(exceptions := s.exceptions[i := Held(result.error)])
      else if s.hasValue then Goto(s, i, Finished)
      else Goto(s, i, WritingIndex).(hasValue := true, winner := i)
    case WritingIndex => Goto(s, i, if result.Value? then WritingValue else SettingValue).(index := i)
    case WritingValue => Goto(s, i, SettingValue).(value := if result.Value? then Held(result.value) else s.value)
    case SettingValue => Goto(s, i, Finished).(valuesSet := s.valuesSet + [(s.index, s.value)])
    case Counting =>
      Goto(s, i, if s.failuresRemaining - 1 == 0 then SettingException else Finished).(failuresRemaining := s.failuresRemaining - 1)
    case SettingException => Goto(s, i, Finished).(exceptionsSet := s.exceptionsSet + [s.exceptions])
  }

  // ----- What every state keeps -----

  /** A callback is only ever at points of its own kind. */
  predicate Typed<T, E>(c: Callback<T, E>) {
    match c.pc
    case Start => true
    case Finished => true
    case WritingValue => c.result.Value?
    case Counting => c.result.Failure?
    case SettingException => c.result.Failure?
    case WritingIndex => !c.result.Failure?
    case SettingValue => !c.result.Failure?
  }

  predicate Writing(pc: Pc) {
    pc.WritingIndex? || pc.WritingValue? || pc.SettingValue?
  }

  function Stored<T, E>(result: Expected<T, E>): Slot<T> {
    if result.Value? then Held(result.value) else Unset
  }

  /** The winner alone writes the result, and publishes it once it is complete. */
  ghost predicate ValueSide<T, E>(s: State<T, E>, flag: bool) {
    && -1 <= s.winner < |s.callbacks|
    && (s.hasValue <==> flag || s.winner >= 0) && (flag ==> s.winner == -1)
    && (forall i :: 0 <= i < |s.callbacks| ==> Typed(s.callbacks[i]))
    && (forall i :: 0 <= i < |s.callbacks| && Writing(s.callbacks[i].pc) ==> i == s.winner)
    && (!s.hasValue ==> forall i :: 0 <= i < |s.callbacks| && !s.callbacks[i].result.Failure? ==> s.callbacks[i].pc.Start?)
    && (if s.winner == -1 then s.value == Unset && s.valuesSet == []
        else WinnerOk(s, s.callbacks[s.winner]))
  }

  ghost predicate WinnerOk<T, E>(s: State<T, E>, c: Callback<T, E>) {
    && !c.result.Failure? && !c.pc.Start?
    && (!c.pc.WritingIndex? ==> s.index == s.winner)
    && s.value == (if c.pc.WritingIndex? || c.pc.WritingValue? then Unset else Stored(c.result))
    && s.valuesSet == if c.pc.Finished? then [(s.winner, Stored(c.result))] else []
  }

  /** The callback has decremented the counter. */
  function Counted<T, E>(c: Callback<T, E>): int {
    if c.result.Failure? && (c.pc.SettingException? || c.pc.Finished?) then 1 else 0
  }

  function Raising<T, E>(c: Callback<T, E>): int {
    if c.pc.SettingException? then 1 else 0
  }

  function ErrorSlot<T, E>(c: Callback<T, E>): Slot<E> {
    if c.result.Failure? && !c.pc.Start? then Held(c.result.error) else Unset
  }

  /** All slots filled in. */
  ghost predicate AllErrors<T, E>(callbacks: seq<Callback<T, E>>, exceptions: seq<Slot<E>>) {
    && |exceptions| == |callbacks|
    && forall i :: 0 <= i < |callbacks| ==> callbacks[i].result.Failure? && exceptions[i] == Held(callbacks[i].result.error)
  }

  /** Failures are counted once each; the last one finds every exception in its slot. */
  ghost predicate FailureSide<T, E>(s: State<T, E>) {
    && |s.exceptions| == |s.callbacks| > 0
    && (forall i :: 0 <= i < |s.callbacks| ==> s.exceptions[i] == ErrorSlot(s.callbacks[i]))
    && s.failuresRemaining == |s.callbacks| - SumOver(s.callbacks, Counted)
    && SumOver(s.callbacks, Raising) + |s.exceptionsSet| == (if s.failuresRemaining == 0 then 1 else 0)
    && (forall k :: 0 <= k < |s.exceptionsSet| ==> AllErrors(s.callbacks, s.exceptionsSet[k]))
  }

  ghost predicate Inv<T, E>(s: State<T, E>, flag: bool) {
    ValueSide(s, flag) && FailureSide(s)
  }

  lemma InitOk<T, E>(results: seq<Expected<T, E>>, flag: bool)
    requires results != []
    ensures Inv(Init(results, flag), flag) && HasResults(Init(results, flag), results)
  {
    var s := Init(results, flag);
    SumZero(s.callbacks, Counted);
    SumZero(s.callbacks, Raising);
  }

  lemma StepKeepsValueSide<T, E>(s: State<T, E>, flag: bool, i: nat)
    requires ValueSide(s, flag) && |s.exceptions| == |s.callbacks| && Enabled(s, i)
    ensures ValueSide(Step(s, i), flag)
  {
    assert Typed(s.callbacks[i]);
    var s' := Step(s, i);
    assert forall j :: 0 <= j < |s.callbacks| && j != i ==> s'.callbacks[j] == s.callbacks[j];
    assert s.callbacks[i].result == s'.callbacks[i].result;
  }

  /** When the counter reaches zero, every callback has failed and its exception is in place. */
  lemma LastFailure<T, E>(s: State<T, E>)
    requires FailureSide(s) && s.failuresRemaining == 0
    ensures AllErrors(s.callbacks, s.exceptions)
  {
    SumFull(s.callbacks, Counted);
    forall i | 0 <= i < |s.callbacks|
      ensures s.callbacks[i].result.Failure? && s.exceptions[i] == Held(s.callbacks[i].result.error)
    {
      assert Counted(s.callbacks[i]) == 1 && s.exceptions[i] == ErrorSlot(s.callbacks[i]);
    }
  }

  lemma StepKeepsFailureSide<T, E>(s: State<T, E>, flag: bool, i: nat)
    requires Inv(s, flag) && Enabled(s, i)
    ensures FailureSide(Step(s, i))
  {
    hide SumOver, ValueSide, AllErrors;
    var s', c := Step(s, i), s.callbacks[i];
    assert Typed(c) && s.exceptions[i] == ErrorSlot(c) by { CallbackTyped(s, flag, i); }
    SumUpdate(s.callbacks, Counted, i, s'.callbacks[i]);
    SumUpdate(s.callbacks, Raising, i, s'.callbacks[i]);
    StepKeepsErrors(s, i);
    if c.pc.SettingException? {
      SumNonNegative(s.callbacks, Raising);
      LastFailure(s);
      SameErrors(s, i, s.exceptions);
    }
    if c.pc.Counting? {
      SumFull(s'.callbacks, Counted);
      SumNonNegative(s.callbacks, Raising);
    }
    forall k | 0 <= k < |s.exceptionsSet|
      ensures AllErrors(s'.callbacks, s.exceptionsSet[k])
    {
      SameErrors(s, i, s.exceptionsSet[k]);
    }
  }

  lemma CallbackTyped<T, E>(s: State<T, E>, flag: bool, i: nat)
    requires ValueSide(s, flag) && i < |s.callbacks|
    ensures Typed(s.callbacks[i])
  {
  }

  lemma SameErrors<T, E>(s: State<T, E>, i: nat, exceptions: seq<Slot<E>>)
    requires Enabled(s, i) && |s.exceptions| == |s.callbacks| && AllErrors(s.callbacks, exceptions)
    ensures AllErrors(Step(s, i).callbacks, exceptions)
  {
  }

  lemma StepKeepsErrors<T, E>(s: State<T, E>, i: nat)
    requires Enabled(s, i) && |s.exceptions| == |s.callbacks| && Typed(s.callbacks[i])
    requires forall j :: 0 <= j < |s.callbacks| ==> s.exceptions[j] == ErrorSlot(s.callbacks[j])
    ensures forall j :: 0 <= j < |s.callbacks| ==> Step(s, i).exceptions[j] == ErrorSlot(Step(s, i).callbacks[j])
  {
  }

  /** Main invariant: every step of every callback keeps it. */
  lemma StepKeeps<T, E>(s: State<T, E>, flag: bool, i: nat)
    requires Inv(s, flag) && Enabled(s, i)
    ensures Inv(Step(s, i), flag)
  {
    StepKeepsValueSide(s, flag, i);
    StepKeepsFailureSide(s, flag, i);
  }

  // ----- Runs -----

  /** Every schedule of steps is a run. */
  ghost predicate IsRun<T, E>(s: State<T, E>, schedule: seq<nat>)
    requires |s.exceptions| == |s.callbacks|
    decreases |schedule|
  {
    schedule != [] ==> Enabled(s, schedule[0]) && IsRun(Step(s, schedule[0]), schedule[1..])
  }

  ghost function After<T, E>(s: State<T, E>, schedule: seq<nat>): State<T, E>
    requires |s.exceptions| == |s.callbacks| && IsRun(s, schedule)
    decreases |schedule|
  {
    if schedule == [] then s else After(Step(s, schedule[0]), schedule[1..])
  }

  ghost predicate Succeeds<T, E>(results: seq<Expected<T, E>>, i: nat) {
    i < |results| && !results[i].Failure?
  }

  /** The callback whose success takes effect first, or -1. */
  ghost function FirstSuccess<T, E>(results: seq<Expected<T, E>>, schedule: seq<nat>): int {
    if schedule == [] then -1
    else if Succeeds(results, schedule[0]) then schedule[0]
    else FirstSuccess(results, schedule[1..])
  }

  ghost predicate HasResults<T, E>(s: State<T, E>, results: seq<Expected<T, E>>) {
    |s.callbacks| == |results| && forall i :: 0 <= i < |results| ==> s.callbacks[i].result == results[i]
  }

  /** The invariant holds in every reachable state, and the flag goes to the first success. */
  lemma {:induction false} RunKeeps<T, E>(s: State<T, E>, results: seq<Expected<T, E>>, flag: bool, schedule: seq<nat>)
    requires Inv(s, flag) && HasResults(s, results) && IsRun(s, schedule)
    ensures Inv(After(s, schedule), flag) && HasResults(After(s, schedule), results)
    ensures After(s, schedule).winner == if s.hasValue then s.winner else FirstSuccess(results, schedule)
    decreases |schedule|
  {
    if schedule != [] {
      hide Inv, ValueSide, Step, HasResults, Enabled;
      InvParts(s, flag);
      var i := schedule[0];
      StepKeeps(s, flag, i);
      StepKeepsResults(s, results, i);
      StepKeepsWinner(s, results, flag, i);
      RunKeeps(Step(s, i), results, flag, schedule[1..]);
    }
  }

  lemma StepKeepsResults<T, E>(s: State<T, E>, results: seq<Expected<T, E>>, i: nat)
    requires HasResults(s, results) && Enabled(s, i) && |s.exceptions| == |s.callbacks|
    ensures HasResults(Step(s, i), results) && |Step(s, i).exceptions| == |Step(s, i).callbacks|
  {
    assert s.callbacks[i].result == results[i];
  }

  /** Only the first success to test the flag changes the winner. */
  lemma StepKeepsWinner<T, E>(s: State<T, E>, results: seq<Expected<T, E>>, flag: bool, i: nat)
    requires ValueSide(s, flag) && HasResults(s, results) && Enabled(s, i) && |s.exceptions| == |s.callbacks|
    ensures s.hasValue ==> Step(s, i).hasValue && Step(s, i).winner == s.winner
    ensures !s.hasValue && Succeeds(results, i) ==> Step(s, i).hasValue && Step(s, i).winner == i
    ensures !s.hasValue && !Succeeds(results, i) ==> !Step(s, i).hasValue
  {
    assert s.callbacks[i].result == results[i] && Typed(s.callbacks[i]);
  }

  lemma InvParts<T, E>(s: State<T, E>, flag: bool)
    requires Inv(s, flag)
    ensures ValueSide(s, flag) && |s.exceptions| == |s.callbacks| && (s.winner >= 0 ==> s.hasValue) && (!s.hasValue ==> s.winner == -1)
    ensures !s.hasValue ==> forall i :: 0 <= i < |s.callbacks| && !s.callbacks[i].result.Failure? ==> s.callbacks[i].pc.Start?
  {
  }

  ghost predicate AllFail<T, E>(results: seq<Expected<T, E>>) {
    forall i :: 0 <= i < |results| ==> results[i].Failure?
  }

  function Errors<T, E>(results: seq<Expected<T, E>>): seq<Slot<E>> {
    seq(|results|, i requires 0 <= i < |results| => if results[i].Failure? then Held(results[i].error) else Unset)
  }

  /** At most one of the two kinds of result is ever set, and at most once. */
  lemma AtMostOnce<T, E>(s: State<T, E>, flag: bool)
    requires Inv(s, flag)
    ensures |s.valuesSet| + |s.exceptionsSet| <= 1
  {
    SumNonNegative(s.callbacks, Raising);
    if s.winner >= 0 && s.failuresRemaining == 0 {
      LastFailure(s);
      assert false;
    }
  }

  /** What has been set when all callbacks are through. */
  lemma CompleteState<T, E>(s: State<T, E>, results: seq<Expected<T, E>>, flag: bool)
    requires Inv(s, flag) && HasResults(s, results) && Complete(s)
    ensures s.valuesSet == if s.winner >= 0 then [(s.winner, Stored(results[s.winner]))] else []
    ensures s.winner >= 0 <==> !flag && !AllFail(results)
    ensures s.exceptionsSet == if AllFail(results) then [Errors(results)] else []
  {
    if s.winner >= 0 { assert !results[s.winner].Failure?; }
    if AllFail(results) {
      assert forall i :: 0 <= i < |s.callbacks| ==> Counted(s.callbacks[i]) == 1;
      SumFull(s.callbacks, Counted);
      SumZero(s.callbacks, Raising);
      assert s.exceptionsSet[0] == Errors(results);
    } else {
      var i :| 0 <= i < |results| && !results[i].Failure?;
      assert Counted(s.callbacks[i]) == 0;
      SumFull(s.callbacks, Counted);
    }
  }

  lemma {:induction false} FirstSuccessMeaning<T, E>(results: seq<Expected<T, E>>, schedule: seq<nat>)
    ensures var w := FirstSuccess(results, schedule);
            && (w >= 0 ==> Succeeds(results, w))
            && (w < 0 ==> w == -1 && forall i :: i in schedule ==> !Succeeds(results, i))
  {
    if schedule != [] && !Succeeds(results, schedule[0]) {
      FirstSuccessMeaning(results, schedule[1..]);
      assert forall i :: i in schedule ==> i == schedule[0] || i in schedule[1..];
    }
  }

  /** A callback that is not through takes a step before the run is complete. */
  lemma {:induction false} EveryoneSteps<T, E>(s: State<T, E>, schedule: seq<nat>, i: nat)
    requires |s.exceptions| == |s.callbacks| && IsRun(s, schedule) && Complete(After(s, schedule)) && Enabled(s, i)
    ensures i in schedule
    decreases |schedule|
  {
    if schedule[0] != i {
      EveryoneSteps(Step(s, schedule[0]), schedule[1..], i);
    }
  }

  /**
    Main result, over every interleaving: with the flag initially clear, a value is set exactly once when
    some callback succeeds, and it is the index and the value of the first success; when all of them
    fail, one exception with all n exceptions is set. With the flag initially set no value is ever set.
   */
  lemma EveryRunCompletes<T, E>(results: seq<Expected<T, E>>, flag: bool, schedule: seq<nat>)
    requires results != [] && IsRun(Init(results, flag), schedule) && Complete(After(Init(results, flag), schedule))
    ensures var s := After(Init(results, flag), schedule);
            var w := FirstSuccess(results, schedule);
            && (w >= 0 <==> !AllFail(results))
            && (w >= 0 ==> Succeeds(results, w))
            && s.valuesSet == (if !flag && w >= 0 then [(w, Stored(results[w]))] else [])
            && s.exceptionsSet == (if AllFail(results) then [Errors(results)] else [])
    ensures var s := After(Init(results, flag), schedule);
            var w := FirstSuccess(results, schedule);
            && (!flag && w >= 0 && results[w].Value? ==> s.valuesSet == [(w, Held(results[w].value))])
            && (!flag && w >= 0 && results[w].Void? ==> s.valuesSet == [(w, Unset)])
            && (flag || w < 0 ==> s.valuesSet == [])
            && (s.exceptionsSet != [] <==> AllFail(results))
            && (AllFail(results) ==>
                  && |s.exceptionsSet| == 1 && |s.exceptionsSet[0]| == |results|
                  && forall i :: 0 <= i < |results| ==> s.exceptionsSet[0][i] == Held(results[i].error))
  {
    var s0 := Init(results, flag);
    InitOk(results, flag);
    RunKeeps(s0, results, flag, schedule);
    var s := After(s0, schedule);
    CompleteState(s, results, flag);
    FirstSuccessMeaning(results, schedule);
    if !AllFail(results) {
      var i: nat :| i < |results| && !results[i].Failure?;
      EveryoneSteps(s0, schedule, i);
      assert Succeeds(results, i);
    }
  }

  // ----- Every schedule ends -----

  function Rank(pc: Pc): int {
    match pc
    case Start => 4
    case WritingIndex => 3
    case WritingValue => 2
    case SettingValue => 1
    case Counting => 2
    case SettingException => 1
    case Finished => 0
  }

  function CallbackRank<T, E>(c: Callback<T, E>): int {
    Rank(c.pc)
  }

  ghost function StepsLeft<T, E>(s: State<T, E>): int {
    SumOver(s.callbacks, CallbackRank)
  }

  lemma StepProgress<T, E>(s: State<T, E>, i: nat)
    requires Enabled(s, i) && |s.exceptions| == |s.callbacks|
    ensures 0 <= StepsLeft(Step(s, i)) < StepsLeft(s)
  {
    hide SumOver;
    SumUpdate(s.callbacks, CallbackRank, i, Step(s, i).callbacks[i]);
    SumNonNegative(Step(s, i).callbacks, CallbackRank);
  }

  /** Runs the callbacks under an arbitrary scheduler until all of them are through. */
  method Execute<T, E>(results: seq<Expected<T, E>>, flag: bool) returns (s: State<T, E>, ghost schedule: seq<nat>)
    requires results != []
    ensures IsRun(Init(results, flag), schedule) && s == After(Init(results, flag), schedule) && Complete(s)
    ensures |s.valuesSet| + |s.exceptionsSet| == if flag && !AllFail(results) then 0 else 1
    ensures var w := FirstSuccess(results, schedule);
            && w < |results| && (w >= 0 <==> !AllFail(results))
            && (!flag && w >= 0 && results[w].Value? ==> s.valuesSet == [(w, Held(results[w].value))])
            && (!flag && w >= 0 && results[w].Void? ==> s.valuesSet == [(w, Unset)])
    ensures AllFail(results) ==>
              && |s.exceptionsSet| == 1 && |s.exceptionsSet[0]| == |results|
              && forall i :: 0 <= i < |results| ==> s.exceptionsSet[0][i] == Held(results[i].error)
  {
    hide Inv, StepsLeft, AllFail, Step, HasResults, IsRun, After;
    s := Init(results, flag);
    schedule := [];
    NoSteps(s);
    InitOk(results, flag);
    while !Complete(s)
      invariant Inv(s, flag) && HasResults(s, results)
      invariant IsRun(Init(results, flag), schedule) && s == After(Init(results, flag), schedule)
      decreases StepsLeft(s)
    {
      var i :| 0 <= i < |s.callbacks| && !s.callbacks[i].pc.Finished?;
      InvParts(s, flag);
      StepKeeps(s, flag, i);
      StepProgress(s, i);
      StepKeepsResults(s, results, i);
      RunExtends(Init(results, flag), schedule, i);
      schedule := schedule + [i];
      s := Step(s, i);
    }
    InvParts(s, flag);
    CompleteState(s, results, flag);
    EveryRunCompletes(results, flag, schedule);
  }

  lemma NoSteps<T, E>(s: State<T, E>)
    requires |s.exceptions| == |s.callbacks|
    ensures IsRun(s, []) && After(s, []) == s
  {
  }

  lemma {:induction false} RunExtends<T, E>(s: State<T, E>, schedule: seq<nat>, i: nat)
    requires |s.exceptions| == |s.callbacks| && IsRun(s, schedule) && Enabled(After(s, schedule), i)
    requires |After(s, schedule).exceptions| == |After(s, schedule).callbacks|
    ensures IsRun(s, schedule + [i]) && After(s, schedule + [i]) == Step(After(s, schedule), i)
    decreases |schedule|
  {
    if schedule == [] {
      assert (schedule + [i])[1..] == [];
    } else {
      assert (schedule + [i])[1..] == schedule[1..] + [i];
      RunExtends(Step(s, schedule[0]), schedule[1..], i);
    }
  }
}

/** Stopper.TurnOff under every interleaving of any number of callers.  Each atomic operation,
    channel close, lock and unlock is one step. */
module TurnOff {
  import opened Common

  const IDLE := 0
  const TRIGGERED := 1
  const STOPPING := 2
  const STOPPED := 3

  /** Where one caller of TurnOff stands: the operation it performs next. */
  datatype PC =
    | TriggerCas
    | TriggerClose
    | Locking
    | Loading
    | Swapping(seen: int)
    | Unlocking(won: bool)
    | Starting
    | RunningInline
    | AwaitingDone
    | StopCas
    | StopClose
    | Returned(won: bool)

  /** `spawned`, `started` and `finished` count goroutines launched for f and not yet begun, and
      calls of f begun and ended (by return or by panic).  `triggeredBy` and `wonBy` record which
      caller's swap made the stopper triggered and stopping; no step reads them. */
  datatype State = State(
    state: int,
    triggerCloses: nat,
    stoppedCloses: nat,
    lock: Holder,
    spawned: nat,
    started: nat,
    finished: nat,
    triggeredBy: Holder,
    wonBy: Holder,
    callers: map<nat, PC>)

  datatype Action =
    | Call(i: nat)      // a new caller enters TurnOff
    | Advance(i: nat)   // caller i performs its next operation
    | StartSpawned      // the goroutine launched for f begins f
    | FinishF           // a running f returns or panics

  const INIT: State := State(IDLE, 0, 0, Nobody, 0, 0, 0, Nobody, Nobody, map[])

  predicate Enabled(s: State, a: Action) {
    match a
    case Call(i) => i !in s.callers
    case Advance(i) =>
      && i in s.callers
      && !s.callers[i].Returned?
      && (s.callers[i].Locking? ==> s.lock == Nobody)
      && (s.callers[i].RunningInline? ==> s.finished == s.started)
    case StartSpawned => s.spawned > 0
    case FinishF => s.finished < s.started
  }

  /** `timed` says whether the stopper has a positive timeout.  A caller awaiting f may go on at
      any moment, by the done channel or by the deadline. */
  function Next(s: State, a: Action, timed: bool): State
    requires Enabled(s, a)
  {
    match a
    case Call(i) => s.(callers := s.callers[i := TriggerCas])
    case StartSpawned => s.(spawned := s.spawned - 1, started := s.started + 1)
    case FinishF => s.(finished := s.finished + 1)
    case Advance(i) => Operate(s, i, timed)
  }

  function Operate(s: State, i: nat, timed: bool): State
    requires Enabled(s, Advance(i))
  {
    match s.callers[i]
    case TriggerCas =>
      if s.state == IDLE then s.(state := TRIGGERED, triggeredBy := By(i), callers := s.callers[i := TriggerClose])
      else s.(callers := s.callers[i := Locking])
    case TriggerClose => s.(triggerCloses := s.triggerCloses + 1, callers := s.callers[i := Locking])
    case Locking => s.(lock := By(i), callers := s.callers[i := Loading])
    case Loading =>
      if s.state >= STOPPING then s.(callers := s.callers[i := Unlocking(false)])
      else s.(callers := s.callers[i := Swapping(s.state)])
    case Swapping(seen) =>
      if s.state == seen then s.(state := STOPPING, wonBy := By(i), callers := s.callers[i := Unlocking(true)])
      else s.(callers := s.callers[i := Unlocking(false)])
    case Unlocking(won) =>
      s.(lock := Nobody, callers := s.callers[i := if won then Starting else Returned(false)])
    case Starting =>
      if timed then s.(spawned := s.spawned + 1, callers := s.callers[i := AwaitingDone])
      else s.(started := s.started + 1, callers := s.callers[i := RunningInline])
    case RunningInline => s.(callers := s.callers[i := StopCas])
    case AwaitingDone => s.(callers := s.callers[i := StopCas])
    case StopCas =>
      if s.state == STOPPING then s.(state := STOPPED, callers := s.callers[i := StopClose])
      else s.(callers := s.callers[i := Returned(true)])
    case StopClose => s.(stoppedCloses := s.stoppedCloses + 1, callers := s.callers[i := Returned(true)])
  }

  /** The state after a schedule, if every action of it was possible in turn. */
  function Exec(schedule: seq<Action>, timed: bool): Option<State> {
    if schedule == [] then Some(INIT)
    else
      match Exec(schedule[..|schedule| - 1], timed)
      case None => None
      case Some(s) =>
        var a := schedule[|schedule| - 1];
        if Enabled(s, a) then Some(Next(s, a, timed)) else None
  }

  // ----- The inductive invariant -----

  predicate Won(pc: PC) {
    match pc
    case Unlocking(won) => won
    case Returned(won) => won
    case _ => pc.Starting? || Begun(pc)
  }

  /** The winner has called f, or launched the goroutine that will. */
  predicate Begun(pc: PC) {
    pc.RunningInline? || pc.AwaitingDone? || pc.StopCas? || pc.StopClose? || (pc.Returned? && pc.won)
  }

  predicate Critical(pc: PC) {
    pc.Loading? || pc.Swapping? || pc.Unlocking?
  }

  /** What holds of a caller that stands at `pc`. */
  ghost predicate CallerInv(s: State, i: nat, pc: PC, timed: bool) {
    && (s.lock == By(i) <==> Critical(pc))
    && (s.wonBy == By(i) <==> Won(pc))
    && match pc
       case TriggerCas => true
       case TriggerClose => s.state >= TRIGGERED && s.triggeredBy == By(i)
       case Locking => s.state >= TRIGGERED
       case Loading => s.state >= TRIGGERED
       case Swapping(seen) => seen == s.state == TRIGGERED
       case Unlocking(won) => if won then s.state == STOPPING else s.state >= STOPPING
       case Starting => s.state == STOPPING
       case RunningInline => s.state == STOPPING && !timed
       case AwaitingDone => s.state == STOPPING && timed
       case StopCas => s.state == STOPPING
       case StopClose => s.state == STOPPED
       case Returned(won) => if won then s.state == STOPPED else s.state >= STOPPING
  }

  ghost predicate FunctionInv(s: State, timed: bool) {
    && s.finished <= s.started
    && (s.spawned + s.started == if HasBegun(s) then 1 else 0)
    && (!timed ==> s.spawned == 0 && (HasBegun(s) && !s.callers[s.wonBy.id].RunningInline? ==> s.finished == s.started))
  }

  ghost predicate HasBegun(s: State) {
    s.wonBy.By? && s.wonBy.id in s.callers && Begun(s.callers[s.wonBy.id])
  }

  ghost predicate SharedInv(s: State) {
    && IDLE <= s.state <= STOPPED
    && (s.lock.By? ==> s.lock.id in s.callers)
    && (s.triggeredBy.By? <==> s.state >= TRIGGERED)
    && (s.triggeredBy.By? ==> s.triggeredBy.id in s.callers)
    && (s.wonBy.By? <==> s.state >= STOPPING)
    && (s.wonBy.By? ==> s.wonBy.id in s.callers)
    && s.triggerCloses == (if s.triggeredBy.By? && !s.callers[s.triggeredBy.id].TriggerClose? then 1 else 0)
    && s.stoppedCloses == (if s.state == STOPPED && !s.callers[s.wonBy.id].StopClose? then 1 else 0)
  }

  ghost predicate Inv(s: State, timed: bool) {
    && SharedInv(s)
    && FunctionInv(s, timed)
    && forall i :: i in s.callers ==> CallerInv(s, i, s.callers[i], timed)
  }

  lemma StepKeepsInv(s: State, a: Action, timed: bool)
    requires Inv(s, timed) && Enabled(s, a)
    ensures Inv(Next(s, a, timed), timed)
    ensures s.state <= Next(s, a, timed).state
  {
    match a
    case Call(i) => CallKeepsInv(s, i, timed);
    case StartSpawned =>
    case FinishF =>
    case Advance(i) => OperateKeepsInv(s, i, timed);
  }

  lemma CallKeepsInv(s: State, i: nat, timed: bool)
    requires Inv(s, timed) && i !in s.callers
    ensures Inv(Next(s, Call(i), timed), timed)
  {
    var t := Next(s, Call(i), timed);
    forall j | j in t.callers ensures CallerInv(t, j, t.callers[j], timed) {
      assert j != i ==> CallerInv(s, j, s.callers[j], timed);
    }
  }

  lemma OthersKeep(s: State, i: nat, t: State, j: nat, timed: bool)
    requires Inv(s, timed) && Enabled(s, Advance(i)) && t == Operate(s, i, timed)
    requires j in s.callers && j != i
    ensures j in t.callers && CallerInv(t, j, t.callers[j], timed)
  {
    assert CallerInv(s, i, s.callers[i], timed) && CallerInv(s, j, s.callers[j], timed);
  }

  predicate Triggering(pc: PC) {
    pc.TriggerCas? || pc.TriggerClose? || pc.Locking?
  }

  lemma TriggeringKeeps(s: State, i: nat, t: State, timed: bool)
    requires Inv(s, timed) && Enabled(s, Advance(i)) && t == Operate(s, i, timed)
    requires Triggering(s.callers[i])
    ensures i in t.callers && CallerInv(t, i, t.callers[i], timed)
  {
    assert CallerInv(s, i, s.callers[i], timed);
  }

  lemma LockedKeeps(s: State, i: nat, t: State, timed: bool)
    requires Inv(s, timed) && Enabled(s, Advance(i)) && t == Operate(s, i, timed)
    requires Critical(s.callers[i])
    ensures i in t.callers && CallerInv(t, i, t.callers[i], timed)
  {
    assert CallerInv(s, i, s.callers[i], timed);
  }

  lemma LeavingKeeps(s: State, i: nat, t: State, timed: bool)
    requires Inv(s, timed) && Enabled(s, Advance(i)) && t == Operate(s, i, timed)
    requires !Triggering(s.callers[i]) && !Critical(s.callers[i])
    ensures i in t.callers && CallerInv(t, i, t.callers[i], timed)
  {
    assert CallerInv(s, i, s.callers[i], timed);
  }

  lemma SharedKeeps(s: State, i: nat, t: State, timed: bool)
    requires Inv(s, timed) && Enabled(s, Advance(i)) && t == Operate(s, i, timed)
    ensures SharedInv(t)
  {
    assert CallerInv(s, i, s.callers[i], timed);
  }

  lemma FunctionKeeps(s: State, i: nat, t: State, timed: bool)
    requires Inv(s, timed) && Enabled(s, Advance(i)) && t == Operate(s, i, timed)
    ensures FunctionInv(t, timed)
  {
    assert CallerInv(s, i, s.callers[i], timed);
  }

  lemma OperateKeepsInv(s: State, i: nat, timed: bool)
    requires Inv(s, timed) && Enabled(s, Advance(i))
    ensures Inv(Operate(s, i, timed), timed)
    ensures s.state <= Operate(s, i, timed).state
  {
    var t := Operate(s, i, timed);
    forall j | j in t.callers ensures CallerInv(t, j, t.callers[j], timed) {
      if j != i { OthersKeep(s, i, t, j, timed); }
      else if Triggering(s.callers[i]) { TriggeringKeeps(s, i, t, timed); }
      else if Critical(s.callers[i]) { LockedKeeps(s, i, t, timed); }
      else { LeavingKeeps(s, i, t, timed); }
    }
    SharedKeeps(s, i, t, timed);
    FunctionKeeps(s, i, t, timed);
    assert CallerInv(s, i, s.callers[i], timed);
  }

  // ----- What every run keeps -----

  lemma {:induction false} EveryRun(schedule: seq<Action>, timed: bool)
    requires Exec(schedule, timed).Some?
    ensures Inv(Exec(schedule, timed).value, timed)
  {
    if schedule != [] {
      var front := schedule[..|schedule| - 1];
      EveryRun(front, timed);
      StepKeepsInv(Exec(front, timed).value, schedule[|schedule| - 1], timed);
    }
  }

  /** Later states of a run never have a smaller state number. */
  lemma {:induction false} StateOnlyIncreases(schedule: seq<Action>, k: nat, timed: bool)
    requires k <= |schedule| && Exec(schedule, timed).Some?
    ensures Exec(schedule[..k], timed).Some?
    ensures Exec(schedule[..k], timed).value.state <= Exec(schedule, timed).value.state
    decreases |schedule|
  {
    if k == |schedule| {
      assert schedule[..k] == schedule;
    } else {
      var front := schedule[..|schedule| - 1];
      assert front[..k] == schedule[..k];
      StateOnlyIncreases(front, k, timed);
      EveryRun(front, timed);
      StepKeepsInv(Exec(front, timed).value, schedule[|schedule| - 1], timed);
    }
  }

  ghost predicate Winner(s: State, i: nat) {
    i in s.callers && Won(s.callers[i])
  }

  /** In every reachable state: no channel has been closed twice; f begins at most once, has been
      launched before the stopped channel is closed and, without a timeout, has ended; at most one
      caller wins, and one has won exactly from the stopping state on. */
  lemma TurnOffSafety(schedule: seq<Action>, timed: bool)
    requires Exec(schedule, timed).Some?
    ensures var s := Exec(schedule, timed).value;
      && s.triggerCloses <= 1 && s.stoppedCloses <= 1
      && s.started + s.spawned <= 1
      && (s.stoppedCloses == 1 ==> s.state == STOPPED && s.started + s.spawned == 1)
      && (s.stoppedCloses == 1 && !timed ==> s.finished == 1)
      && (forall i, j :: Winner(s, i) && Winner(s, j) ==> i == j)
      && (s.state >= STOPPING <==> exists j :: Winner(s, j))
      && (forall i :: i in s.callers && s.callers[i].Returned? ==> s.state >= STOPPING)
  {
    EveryRun(schedule, timed);
    var s := Exec(schedule, timed).value;
    forall i, j | Winner(s, i) && Winner(s, j) ensures i == j {
      assert CallerInv(s, i, s.callers[i], timed) && CallerInv(s, j, s.callers[j], timed);
    }
    forall i | i in s.callers && s.callers[i].Returned? ensures s.state >= STOPPING {
      assert CallerInv(s, i, s.callers[i], timed);
    }
    if s.state >= STOPPING {
      assert CallerInv(s, s.wonBy.id, s.callers[s.wonBy.id], timed);
      assert Winner(s, s.wonBy.id);
    }
  }

  /** The swap made under the mutex always succeeds. */
  lemma SwapUnderLockSucceeds(schedule: seq<Action>, i: nat, timed: bool)
    requires Exec(schedule, timed).Some?
    requires i in Exec(schedule, timed).value.callers && Exec(schedule, timed).value.callers[i].Swapping?
    ensures Operate(Exec(schedule, timed).value, i, timed).callers[i] == Unlocking(true)
  {
    EveryRun(schedule, timed);
    var s := Exec(schedule, timed).value;
    assert CallerInv(s, i, s.callers[i], timed);
  }

  /** When every caller has returned, the shutdown is complete and happened once. */
  lemma AllReturned(schedule: seq<Action>, timed: bool)
    requires Exec(schedule, timed).Some? && Exec(schedule, timed).value.callers != map[]
    requires forall i :: i in Exec(schedule, timed).value.callers ==> Exec(schedule, timed).value.callers[i].Returned?
    ensures var s := Exec(schedule, timed).value;
      && s.state == STOPPED && s.triggerCloses == 1 && s.stoppedCloses == 1 && s.lock == Nobody
      && s.started + s.spawned == 1
      && exists i :: i in s.callers && s.callers[i] == Returned(true)
  {
    EveryRun(schedule, timed);
    var s := Exec(schedule, timed).value;
    var i :| i in s.callers;
    assert forall j :: j in s.callers ==> CallerInv(s, j, s.callers[j], timed);
    assert s.callers[s.wonBy.id] == Returned(true);
  }

  /** While some caller has not returned, one of them, or a running f, can take a step. */
  lemma NeverStuck(schedule: seq<Action>, i: nat, timed: bool)
    requires Exec(schedule, timed).Some?
    requires i in Exec(schedule, timed).value.callers && !Exec(schedule, timed).value.callers[i].Returned?
    ensures exists a: Action :: !a.Call? && Enabled(Exec(schedule, timed).value, a)
  {
    EveryRun(schedule, timed);
    var s := Exec(schedule, timed).value;
    if s.callers[i].Locking? && s.lock.By? {
      assert CallerInv(s, s.lock.id, s.callers[s.lock.id], timed);
      assert Enabled(s, Advance(s.lock.id));
    } else if s.callers[i].RunningInline? && s.finished < s.started {
      assert Enabled(s, FinishF);
    } else {
      assert Enabled(s, Advance(i));
    }
  }

  /** When nothing but a new call is possible any more and there was a call, f has begun and ended,
      once, with a timeout or without, and the stopper is stopped. */
  lemma RestIsComplete(schedule: seq<Action>, timed: bool)
    requires Exec(schedule, timed).Some? && Exec(schedule, timed).value.callers != map[]
    requires forall a :: Enabled(Exec(schedule, timed).value, a) ==> a.Call?
    ensures var s := Exec(schedule, timed).value;
      s.started == 1 && s.finished == 1 && s.spawned == 0 && s.state == STOPPED && s.stoppedCloses == 1
  {
    EveryRun(schedule, timed);
    var s := Exec(schedule, timed).value;
    forall i | i in s.callers ensures s.callers[i].Returned? {
      if !s.callers[i].Returned? { NeverStuck(schedule, i, timed); }
    }
    AllReturned(schedule, timed);
    assert !Enabled(s, StartSpawned) && !Enabled(s, FinishF);
  }

  // ----- The stopped channel may close before the trigger channel -----

  /** The trigger channel is closed exactly when the stopper has been triggered and no caller
      stands between its winning swap and the close. */
  lemma TriggerClosedIff(schedule: seq<Action>, timed: bool)
    requires Exec(schedule, timed).Some?
    ensures var s := Exec(schedule, timed).value;
      s.triggerCloses == 1 <==> s.state >= TRIGGERED && forall i :: i in s.callers ==> !s.callers[i].TriggerClose?
  {
    EveryRun(schedule, timed);
    var s := Exec(schedule, timed).value;
    assert forall i :: i in s.callers ==> CallerInv(s, i, s.callers[i], timed);
  }

  lemma ExecNext(schedule: seq<Action>, s: State, a: Action, timed: bool) returns (longer: seq<Action>, t: State)
    requires Exec(schedule, timed) == Some(s) && Enabled(s, a)
    ensures longer == schedule + [a] && t == Next(s, a, timed) && Exec(longer, timed) == Some(t)
  {
    longer, t := schedule + [a], Next(s, a, timed);
    assert longer[..|schedule|] == schedule;
  }

  /** Caller 0 wins the first swap and pauses before its close; caller 1 enters the mutex and wins. */
  lemma PausedBeforeClose() returns (h: seq<Action>, s: State)
    ensures Exec(h, false) == Some(s)
    ensures s == State(STOPPING, 0, 0, By(1), 0, 0, 0, By(0), By(1), map[0 := TriggerClose, 1 := Unlocking(true)])
  {
    h, s := ExecNext([], INIT, Call(0), false);
    h, s := ExecNext(h, s, Advance(0), false);
    h, s := ExecNext(h, s, Call(1), false);
    h, s := ExecNext(h, s, Advance(1), false);
    h, s := ExecNext(h, s, Advance(1), false);
    h, s := ExecNext(h, s, Advance(1), false);
    h, s := ExecNext(h, s, Advance(1), false);
  }

  lemma StoppedMayCloseFirst()
    ensures exists schedule, s: State :: Exec(schedule, false) == Some(s) && s.stoppedCloses == 1 && s.triggerCloses == 0
  {
    var h, s := PausedBeforeClose();
    h, s := ExecNext(h, s, Advance(1), false);
    h, s := ExecNext(h, s, Advance(1), false);
    h, s := ExecNext(h, s, FinishF, false);
    h, s := ExecNext(h, s, Advance(1), false);
    h, s := ExecNext(h, s, Advance(1), false);
    h, s := ExecNext(h, s, Advance(1), false);
  }

  // ----- The stopped channel may close before f has begun -----

  ghost predicate StoppedBeforeStart(schedule: seq<Action>, timed: bool) {
    Exec(schedule, timed).Some? && Exec(schedule, timed).value.stoppedCloses == 1 && Exec(schedule, timed).value.started == 0
  }

  ghost predicate StoppedBeforeEnd(schedule: seq<Action>, timed: bool) {
    Exec(schedule, timed).Some? && Exec(schedule, timed).value.stoppedCloses == 1 && Exec(schedule, timed).value.finished == 0
  }

  /** The only caller wins, launches f and is timed out before f begins. */
  lemma TimedOut() returns (h: seq<Action>, s: State)
    ensures Exec(h, true) == Some(s) && s.stoppedCloses == 1 && s.started == 0 && s.finished == 0
  {
    h, s := Launched();
    h, s := ExecNext(h, s, Advance(0), true);
    h, s := ExecNext(h, s, Advance(0), true);
    h, s := ExecNext(h, s, Advance(0), true);
  }

  lemma Launched() returns (h: seq<Action>, s: State)
    ensures Exec(h, true) == Some(s)
    ensures s == State(STOPPING, 1, 0, Nobody, 1, 0, 0, By(0), By(0), map[0 := AwaitingDone])
  {
    h, s := ExecNext([], INIT, Call(0), true);
    h, s := ExecNext(h, s, Advance(0), true);
    h, s := ExecNext(h, s, Advance(0), true);
    h, s := ExecNext(h, s, Advance(0), true);
    h, s := ExecNext(h, s, Advance(0), true);
    h, s := ExecNext(h, s, Advance(0), true);
    h, s := ExecNext(h, s, Advance(0), true);
    h, s := ExecNext(h, s, Advance(0), true);
  }

  /** That the stopper is announced as stopped before f has ended, or even begun, is possible
      exactly with a timeout. */
  lemma StoppedEarlyIff(timed: bool)
    ensures (exists schedule :: StoppedBeforeStart(schedule, timed)) <==> timed
    ensures (exists schedule :: StoppedBeforeEnd(schedule, timed)) <==> timed
  {
    if timed {
      var h, s := TimedOut();
      assert StoppedBeforeStart(h, timed) && StoppedBeforeEnd(h, timed);
    } else {
      forall schedule | Exec(schedule, timed).Some?
        ensures !StoppedBeforeStart(schedule, timed) && !StoppedBeforeEnd(schedule, timed)
      {
        EveryRun(schedule, timed);
        TurnOffSafety(schedule, timed);
      }
    }
  }

  // ----- Every call of TurnOff ends -----

  /** Operations a caller still has before it, at most. */
  function Remaining(pc: PC): nat {
    match pc
    case TriggerCas => 10
    case TriggerClose => 9
    case Locking => 8
    case Loading => 7
    case Swapping(_) => 6
    case Unlocking(_) => 5
    case Starting => 4
    case RunningInline => 3
    case AwaitingDone => 3
    case StopCas => 2
    case StopClose => 1
    case Returned(_) => 0
  }

  function StepsOf(schedule: seq<Action>, i: nat): nat {
    if schedule == [] then 0
    else StepsOf(schedule[..|schedule| - 1], i) + if schedule[|schedule| - 1] == Advance(i) then 1 else 0
  }

  lemma StepTaken(s: State, a: Action, i: nat, timed: bool)
    requires Enabled(s, a)
    ensures var t := Next(s, a, timed);
      && (i in t.callers <==> i in s.callers || a == Call(i))
      && (a == Advance(i) ==> i in s.callers && Remaining(t.callers[i]) < Remaining(s.callers[i]))
      && (a != Advance(i) && i in s.callers ==> t.callers[i] == s.callers[i])
      && (a == Call(i) ==> Remaining(t.callers[i]) == 10)
  {
  }

  /** No run takes more than ten steps of one caller. */
  lemma {:induction false} CallerStepsBounded(schedule: seq<Action>, i: nat, timed: bool)
    requires Exec(schedule, timed).Some?
    ensures i !in Exec(schedule, timed).value.callers ==> StepsOf(schedule, i) == 0
    ensures i in Exec(schedule, timed).value.callers ==>
      StepsOf(schedule, i) + Remaining(Exec(schedule, timed).value.callers[i]) <= 10
  {
    if schedule != [] {
      var front, a := schedule[..|schedule| - 1], schedule[|schedule| - 1];
      CallerStepsBounded(front, i, timed);
      StepTaken(Exec(front, timed).value, a, i, timed);
    }
  }
}

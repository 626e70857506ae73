/** The delayer under every interleaving of any number of SetExpiryTime, Reset and Close calls,
    the goroutines they launch, the clock and the receivers of the tick channel.  Each region
    under the mutex, each receive and each firing of a timer is one step. */
module Delayer {
  import opened Common

  /** Where a goroutine running handleExpiry stands. */
  datatype Handler =
    | ReadingTimer
    | Selecting(timer: nat)
    | SendPending(timer: nat)   // has received from the timer, not yet under the read lock
    | Ended

  /** `Drained`: its one value has been received. */
  datatype Timer = Armed | Fired | Drained | Halted

  /** A timer and the goroutine launched with it are named by the SetExpiryTime call that made
      them.  `sent` counts ticks put into the channel, `charged` names the call each is owed to
      and `setters` are the SetExpiryTime calls so far; no step reads these three. */
  datatype State = State(
    stopped: bool,
    tick: bool,
    timer: Holder,
    timers: map<nat, Timer>,
    handlers: map<nat, Handler>,
    sent: nat,
    charged: set<nat>,
    setters: set<nat>)

  datatype Action =
    | SetExpiryTime(i: nat, expired: bool)   // `expired`: the clock finds the new time already past
    | Reset
    | Close(signalled: Holder)               // the goroutine, if any, that takes the offer on stopCh
    | Handle(g: nat)                         // goroutine g goes on
    | Fire(t: nat)                           // timer t reaches its time
    | Receive                                // someone receives from Wait()

  const INIT: State := State(false, false, Nobody, map[], map[], 0, {}, {})

  predicate Enabled(s: State, a: Action) {
    match a
    case SetExpiryTime(i, _) => i !in s.setters
    case Reset => true
    case Close(signalled) =>
      signalled.By? ==> signalled.id in s.handlers && s.handlers[signalled.id].Selecting?
    case Handle(g) =>
      && g in s.handlers
      && !s.handlers[g].Ended?
      && (s.handlers[g].Selecting? ==> s.handlers[g].timer in s.timers && s.timers[s.handlers[g].timer].Fired?)
    case Fire(t) => t in s.timers && s.timers[t].Armed?
    case Receive => s.tick
  }

  function Next(s: State, a: Action): State
    requires Enabled(s, a)
  {
    match a
    case SetExpiryTime(i, expired) => SetStep(s, i, expired)
    case Reset => s.(timers := StopTimer(s), timer := Nobody, stopped := true, tick := false)
    case Close(signalled) =>
      s.(timers := StopTimer(s), timer := Nobody, stopped := true, tick := false,
         handlers := if signalled.By? then s.handlers[signalled.id := Ended] else s.handlers)
    case Handle(g) => HandlerStep(s, g)
    case Fire(t) => s.(timers := s.timers[t := Fired])
    case Receive => s.(tick := false)
  }

  /** Stopping a timer keeps it from firing and, from Go 1.23 on, withdraws a value not yet received. */
  function StopTimer(s: State): map<nat, Timer> {
    if s.timer.By? && s.timer.id in s.timers && Live(s.timers[s.timer.id]) then s.timers[s.timer.id := Halted]
    else s.timers
  }

  predicate Live(t: Timer) {
    t.Armed? || t.Fired?
  }

  function SetStep(s: State, i: nat, expired: bool): State {
    var r := s.(timers := StopTimer(s), stopped := false, tick := false, setters := s.setters + {i});
    if expired then Send(r, i)
    else r.(timer := By(i), timers := r.timers[i := Armed], handlers := r.handlers[i := ReadingTimer])
  }

  /** A send that gives up when the one-slot channel is full. */
  function Send(s: State, creditor: nat): State {
    if s.tick then s else s.(tick := true, sent := s.sent + 1, charged := s.charged + {creditor})
  }

  function HandlerStep(s: State, g: nat): State
    requires Enabled(s, Handle(g))
  {
    match s.handlers[g]
    case ReadingTimer => s.(handlers := s.handlers[g := if s.timer.By? then Selecting(s.timer.id) else Ended])
    case Selecting(t) => s.(timers := s.timers[t := Drained], handlers := s.handlers[g := SendPending(t)])
    case SendPending(t) => (if s.stopped then s else Send(s, t)).(handlers := s.handlers[g := Ended])
  }

  function Exec(schedule: seq<Action>): Option<State> {
    if schedule == [] then Some(INIT)
    else
      match Exec(schedule[..|schedule| - 1])
      case None => None
      case Some(s) =>
        var a := schedule[|schedule| - 1];
        if Enabled(s, a) then Some(Next(s, a)) else None
  }

  // ----- The inductive invariant -----

  ghost predicate TimerInv(s: State) {
    && s.handlers.Keys <= s.timers.Keys <= s.setters
    && (s.timer.By? ==> s.timer.id in s.timers)
    && forall t :: t in s.timers && Live(s.timers[t]) ==> s.timer == By(t) && t !in s.charged
  }

  ghost predicate TickInv(s: State) {
    && (s.stopped ==> !s.tick)
    && s.sent == |s.charged|
    && s.charged <= s.setters
  }

  ghost predicate HandlerInv(s: State, pc: Handler) {
    && (pc.Selecting? ==> pc.timer in s.timers)
    && (pc.SendPending? ==> pc.timer in s.timers && s.timers[pc.timer].Drained? && pc.timer !in s.charged)
  }

  /** No two goroutines hold the value of one timer. */
  ghost predicate OneReceiver(s: State) {
    forall g, h :: g in s.handlers && h in s.handlers && SameTimer(s.handlers[g], s.handlers[h]) ==> g == h
  }

  predicate SameTimer(p: Handler, q: Handler) {
    p.SendPending? && q.SendPending? && p.timer == q.timer
  }

  ghost predicate Inv(s: State) {
    && TimerInv(s)
    && TickInv(s)
    && OneReceiver(s)
    && forall g :: g in s.handlers ==> HandlerInv(s, s.handlers[g])
  }

  lemma HandleKeepsInv(s: State, g: nat)
    requires Inv(s) && Enabled(s, Handle(g))
    ensures Inv(HandlerStep(s, g))
  {
    var t := HandlerStep(s, g);
    assert HandlerInv(s, s.handlers[g]);
    forall h | h in t.handlers ensures HandlerInv(t, t.handlers[h]) {
      assert HandlerInv(s, s.handlers[h]);
      assert h != g ==> !SameTimer(s.handlers[g], s.handlers[h]);
    }
    forall g1, g2 | g1 in t.handlers && g2 in t.handlers && SameTimer(t.handlers[g1], t.handlers[g2])
      ensures g1 == g2
    {
      assert HandlerInv(s, s.handlers[g1]) && HandlerInv(s, s.handlers[g2]);
    }
  }

  lemma SetKeepsInv(s: State, i: nat, expired: bool)
    requires Inv(s) && i !in s.setters
    ensures Inv(SetStep(s, i, expired))
  {
    var t := SetStep(s, i, expired);
    forall h | h in t.handlers ensures HandlerInv(t, t.handlers[h]) {
      if h in s.handlers { assert HandlerInv(s, s.handlers[h]); }
    }
    assert OneReceiver(t);
  }

  lemma StepKeepsInv(s: State, a: Action)
    requires Inv(s) && Enabled(s, a)
    ensures Inv(Next(s, a))
  {
    match a
    case SetExpiryTime(i, expired) => SetKeepsInv(s, i, expired);
    case Handle(g) => HandleKeepsInv(s, g);
    case _ =>
      var t := Next(s, a);
      forall h | h in t.handlers ensures HandlerInv(t, t.handlers[h]) {
        assert HandlerInv(s, s.handlers[h]);
      }
      assert OneReceiver(t);
  }

  lemma {:induction false} EveryRun(schedule: seq<Action>)
    requires Exec(schedule).Some?
    ensures Inv(Exec(schedule).value)
  {
    if schedule != [] {
      EveryRun(schedule[..|schedule| - 1]);
      StepKeepsInv(Exec(schedule[..|schedule| - 1]).value, schedule[|schedule| - 1]);
    }
  }

  // ----- What every run guarantees -----

  function SetsIn(schedule: seq<Action>): nat {
    if schedule == [] then 0
    else SetsIn(schedule[..|schedule| - 1]) + if schedule[|schedule| - 1].SetExpiryTime? then 1 else 0
  }

  lemma {:induction false} SettersCounted(schedule: seq<Action>)
    requires Exec(schedule).Some?
    ensures |Exec(schedule).value.setters| == SetsIn(schedule)
  {
    if schedule != [] {
      SettersCounted(schedule[..|schedule| - 1]);
    }
  }

  lemma SubsetSize(a: set<nat>, b: set<nat>)
    requires a <= b
    ensures |a| <= |b|
  {
    assert b == a + (b - a);
  }

  /** A stopped delayer holds no tick, and no more ticks are ever sent than times were set. */
  lemma DelayerSafety(schedule: seq<Action>)
    requires Exec(schedule).Some?
    ensures var s := Exec(schedule).value; (s.stopped ==> !s.tick) && s.sent <= SetsIn(schedule)
  {
    EveryRun(schedule);
    SettersCounted(schedule);
    SubsetSize(Exec(schedule).value.charged, Exec(schedule).value.setters);
  }

  function ReceivesIn(schedule: seq<Action>): nat {
    if schedule == [] then 0
    else ReceivesIn(schedule[..|schedule| - 1]) + if schedule[|schedule| - 1].Receive? then 1 else 0
  }

  lemma {:induction false} ReceivedWasSent(schedule: seq<Action>)
    requires Exec(schedule).Some?
    ensures var s := Exec(schedule).value; ReceivesIn(schedule) + (if s.tick then 1 else 0) <= s.sent
  {
    if schedule != [] {
      ReceivedWasSent(schedule[..|schedule| - 1]);
    }
  }

  /** Each tick is received once: no more receives succeed than times were set. */
  lemma ReceivesBounded(schedule: seq<Action>)
    requires Exec(schedule).Some?
    ensures ReceivesIn(schedule) <= SetsIn(schedule)
  {
    ReceivedWasSent(schedule);
    DelayerSafety(schedule);
  }

  lemma {:induction false} PrefixRuns(schedule: seq<Action>, k: nat)
    requires k <= |schedule| && Exec(schedule).Some?
    ensures Exec(schedule[..k]).Some?
    decreases |schedule|
  {
    if k == |schedule| {
      assert schedule[..k] == schedule;
    } else {
      var front := schedule[..|schedule| - 1];
      assert front[..k] == schedule[..k];
      PrefixRuns(front, k);
    }
  }

  lemma {:induction false} SilentWhileStopped(schedule: seq<Action>, k: nat)
    requires k <= |schedule| && Exec(schedule).Some?
    requires Exec(schedule[..k]).Some? && Exec(schedule[..k]).value.stopped
    requires forall m :: k <= m < |schedule| ==> !schedule[m].SetExpiryTime?
    ensures var s := Exec(schedule).value; s.stopped && !s.tick && s.sent == Exec(schedule[..k]).value.sent
    decreases |schedule|
  {
    EveryRun(schedule);
    if k == |schedule| {
      assert schedule[..k] == schedule;
    } else {
      var front := schedule[..|schedule| - 1];
      assert front[..k] == schedule[..k];
      SilentWhileStopped(front, k);
    }
  }

  /** From a Reset or Close until the next SetExpiryTime nothing is sent and nothing can be received. */
  lemma SilentUntilSet(schedule: seq<Action>, k: nat)
    requires k < |schedule| && Exec(schedule).Some? && (schedule[k].Reset? || schedule[k].Close?)
    requires forall m :: k < m < |schedule| ==> !schedule[m].SetExpiryTime?
    ensures Exec(schedule[..k]).Some?
    ensures var s := Exec(schedule).value; s.stopped && !s.tick && s.sent == Exec(schedule[..k]).value.sent
  {
    PrefixRuns(schedule, k);
    PrefixRuns(schedule, k + 1);
    assert schedule[..k + 1][..k] == schedule[..k];
    SilentWhileStopped(schedule, k + 1);
  }

  // ----- Going on from a state -----

  function Continue(s: State, later: seq<Action>): Option<State> {
    if later == [] then Some(s)
    else
      match Continue(s, later[..|later| - 1])
      case None => None
      case Some(t) =>
        var a := later[|later| - 1];
        if Enabled(t, a) then Some(Next(t, a)) else None
  }

  // ----- A tick comes -----

  predicate Disturbs(a: Action) {
    a.SetExpiryTime? || a.Reset? || a.Close?
  }

  ghost predicate Undisturbed(later: seq<Action>) {
    forall m :: 0 <= m < |later| ==> !Disturbs(later[m])
  }

  /** After timer i fired, a tick was in the channel at some point. */
  ghost predicate TickedAfterFiring(s: State, later: seq<Action>, i: nat) {
    exists m :: 0 <= m <= |later| && TickAt(s, later[..m], i)
  }

  ghost predicate TickAt(s: State, later: seq<Action>, i: nat) {
    Fire(i) in later && Continue(s, later).Some? && Continue(s, later).value.tick
  }

  lemma TickedStays(s: State, later: seq<Action>, n: nat, i: nat)
    requires n <= |later| && TickedAfterFiring(s, later[..n], i)
    ensures TickedAfterFiring(s, later, i)
  {
    var m :| 0 <= m <= n && TickAt(s, later[..n][..m], i);
    assert later[..n][..m] == later[..m];
  }

  /** Someone holds the value of timer i and has yet to send. */
  ghost predicate SendPendingFor(s: State, i: nat) {
    exists g :: g in s.handlers && s.handlers[g] == SendPending(i)
  }

  /** How call i's timer and its goroutine stand while nothing disturbs them. */
  ghost predicate Underway(t: State, i: nat, fired: bool, ticked: bool) {
    && t.timer == By(i) && !t.stopped && i in t.timers && i in t.handlers
    && (t.timers[i].Armed? <==> !fired) && !t.timers[i].Halted?
    && (t.timers[i].Drained? ==> SendPendingFor(t, i) || ticked)
    && (t.handlers[i] == ReadingTimer || t.handlers[i] == Selecting(i) || t.timers[i].Drained?)
  }

  lemma UnderwayStep(t: State, a: Action, i: nat, fired: bool, ticked: bool)
    requires Inv(t) && Underway(t, i, fired, ticked) && Enabled(t, a) && !Disturbs(a)
    ensures Underway(Next(t, a), i, fired || a == Fire(i), ticked || Next(t, a).tick)
  {
    var r := Next(t, a);
    if a.Handle? {
      assert HandlerInv(t, t.handlers[a.g]);
      if t.handlers[a.g] == Selecting(i) { assert r.handlers[a.g] == SendPending(i); }
    }
    if SendPendingFor(t, i) {
      var g :| g in t.handlers && t.handlers[g] == SendPending(i);
      assert a != Handle(g) ==> r.handlers[g] == SendPending(i);
    }
  }

  lemma {:induction false} UnderwayRun(s: State, i: nat, later: seq<Action>)
    requires Inv(s) && i !in s.setters && Undisturbed(later)
    requires Continue(SetStep(s, i, false), later).Some?
    ensures var t := Continue(SetStep(s, i, false), later).value;
      Inv(t) && Underway(t, i, Fire(i) in later, TickedAfterFiring(SetStep(s, i, false), later, i))
    decreases |later|
  {
    var start := SetStep(s, i, false);
    if later == [] {
      SetKeepsInv(s, i, false);
    } else {
      var n := |later| - 1;
      UnderwayRun(s, i, later[..n]);
      var t := Continue(start, later[..n]).value;
      var fired, ticked := Fire(i) in later[..n], TickedAfterFiring(start, later[..n], i);
      StepKeepsInv(t, later[n]);
      UnderwayStep(t, later[n], i, fired, ticked);
      assert later == later[..n] + [later[n]];
      assert later[..|later|] == later;
      if ticked { TickedStays(start, later, n, i); }
      DrainedMeansFired(Next(t, later[n]), i, Fire(i) in later, ticked || Next(t, later[n]).tick);
      if Next(t, later[n]).tick && Fire(i) in later { assert TickAt(start, later[..|later|], i); }
    }
  }

  lemma DrainedMeansFired(t: State, i: nat, fired: bool, ticked: bool)
    requires Underway(t, i, fired, ticked)
    ensures t.timers[i].Drained? ==> fired
  {
  }

  lemma PastTimeTicksAtOnce(s: State, i: nat)
    ensures SetStep(s, i, true).tick && !SetStep(s, i, true).stopped
  {
  }

  /** In every run that nothing resets, once the timer has fired and no goroutine can go on, a tick
      has been out since, whichever goroutine sent it. */
  lemma TickComes(s: State, i: nat, later: seq<Action>)
    requires Inv(s) && i !in s.setters && Undisturbed(later)
    requires Continue(SetStep(s, i, false), later).Some? && Fire(i) in later
    requires forall g: nat :: !Enabled(Continue(SetStep(s, i, false), later).value, Handle(g))
    ensures TickedAfterFiring(SetStep(s, i, false), later, i)
  {
    UnderwayRun(s, i, later);
    var t := Continue(SetStep(s, i, false), later).value;
    assert !Enabled(t, Handle(i));
    if SendPendingFor(t, i) { PendingGoesOn(t, i); }
  }

  lemma PendingGoesOn(t: State, i: nat)
    requires SendPendingFor(t, i)
    ensures exists g: nat :: Enabled(t, Handle(g))
  {
    var g :| g in t.handlers && t.handlers[g] == SendPending(i);
    assert Enabled(t, Handle(g));
  }

  // ----- Goroutines that wait for good -----

  /** Goroutine g waits for a timer whose value will never come. */
  predicate Blocked(s: State, g: nat) {
    g in s.handlers && s.handlers[g].Selecting? &&
    !(s.handlers[g].timer in s.timers && Live(s.timers[s.handlers[g].timer]))
  }

  lemma BlockedStep(s: State, g: nat, a: Action)
    requires Inv(s) && Blocked(s, g) && Enabled(s, a) && a != Close(By(g))
    ensures Blocked(Next(s, a), g)
  {
    assert HandlerInv(s, s.handlers[g]);
  }

  /** Only a Close that finds it waiting ends a blocked goroutine, and it ends no other. */
  lemma {:induction false} BlockedForGood(s: State, g: nat, later: seq<Action>)
    requires Inv(s) && Blocked(s, g) && Continue(s, later).Some? && Close(By(g)) !in later
    ensures Inv(Continue(s, later).value) && Blocked(Continue(s, later).value, g)
    decreases |later|
  {
    if later != [] {
      var n := |later| - 1;
      assert later == later[..n] + [later[n]];
      BlockedForGood(s, g, later[..n]);
      var t := Continue(s, later[..n]).value;
      BlockedStep(t, g, later[n]);
      StepKeepsInv(t, later[n]);
    }
  }

  /** Goroutine g takes a step in some continuation in which no Close takes it. */
  ghost predicate CanGoOn(s: State, g: nat) {
    exists later :: Close(By(g)) !in later && Continue(s, later).Some? && Enabled(Continue(s, later).value, Handle(g))
  }

  /** Exactly the goroutines that have ended or are blocked never go on by themselves. */
  lemma GoesOnIff(schedule: seq<Action>, g: nat)
    requires Exec(schedule).Some? && g in Exec(schedule).value.handlers
    ensures var s := Exec(schedule).value; CanGoOn(s, g) <==> !s.handlers[g].Ended? && !Blocked(s, g)
  {
    EveryRun(schedule);
    var s := Exec(schedule).value;
    assert Continue(s, []) == Some(s);
    if s.handlers[g].Ended? {
      forall later | Continue(s, later).Some? ensures !Enabled(Continue(s, later).value, Handle(g)) {
        EndedForGood(s, g, later);
      }
    } else if Blocked(s, g) {
      forall later | Continue(s, later).Some? && Close(By(g)) !in later
        ensures !Enabled(Continue(s, later).value, Handle(g))
      {
        BlockedForGood(s, g, later);
      }
    } else if s.handlers[g].Selecting? && s.timers[s.handlers[g].timer].Armed? {
      ContinueOne(s, Fire(s.handlers[g].timer));
    } else {
      assert Enabled(s, Handle(g));
    }
  }

  lemma ContinueOne(s: State, a: Action)
    requires Enabled(s, a)
    ensures Continue(s, [a]) == Some(Next(s, a))
  {
    assert [a][..0] == [];
    assert Continue(s, []) == Some(s);
  }

  lemma {:induction false} EndedForGood(s: State, g: nat, later: seq<Action>)
    requires Inv(s) && g in s.handlers && s.handlers[g].Ended? && Continue(s, later).Some?
    ensures var t := Continue(s, later).value; Inv(t) && g in t.handlers && t.handlers[g].Ended?
    decreases |later|
  {
    if later != [] {
      EndedForGood(s, g, later[..|later| - 1]);
      StepKeepsInv(Continue(s, later[..|later| - 1]).value, later[|later| - 1]);
    }
  }

  /** A Close that hands its signal to goroutine g ends it for good. */
  lemma CloseEnds(schedule: seq<Action>, g: nat, later: seq<Action>)
    requires Exec(schedule).Some? && Enabled(Exec(schedule).value, Close(By(g)))
    requires Continue(Next(Exec(schedule).value, Close(By(g))), later).Some?
    ensures !Enabled(Continue(Next(Exec(schedule).value, Close(By(g))), later).value, Handle(g))
  {
    var s := Exec(schedule).value;
    EveryRun(schedule);
    StepKeepsInv(s, Close(By(g)));
    EndedForGood(Next(s, Close(By(g))), g, later);
  }

  // ----- Ticks that come before their time -----

  ghost predicate NeitherSetNorFired(later: seq<Action>, i: nat) {
    forall m :: 0 <= m < |later| ==> !later[m].SetExpiryTime? && later[m] != Fire(i)
  }

  /** After call i armed its timer in state s, a tick can appear before that timer fires. */
  ghost predicate TicksEarly(s: State, i: nat) {
    exists later ::
      && NeitherSetNorFired(later, i)
      && Continue(SetStep(s, i, false), later).Some?
      && Continue(SetStep(s, i, false), later).value.tick
  }

  ghost predicate SomeSendPending(s: State) {
    exists g :: g in s.handlers && s.handlers[g].SendPending?
  }

  lemma {:induction false} QuietWhileArmed(s: State, i: nat, later: seq<Action>)
    requires Inv(s) && i !in s.setters && !SomeSendPending(s)
    requires NeitherSetNorFired(later, i)
    requires Continue(SetStep(s, i, false), later).Some?
    ensures var t := Continue(SetStep(s, i, false), later).value;
      !t.tick && !SomeSendPending(t) && (forall n :: n in t.timers && n != i ==> !Live(t.timers[n])) &&
      i in t.timers && !t.timers[i].Fired?
    decreases |later|
  {
    if later != [] {
      var n := |later| - 1;
      QuietWhileArmed(s, i, later[..n]);
      var t := Continue(SetStep(s, i, false), later[..n]).value;
      assert Enabled(t, later[n]);
      assert forall g :: g in t.handlers ==> !t.handlers[g].SendPending?;
    } else {
      assert forall g :: g in s.handlers ==> !s.handlers[g].SendPending?;
    }
  }

  /** An early tick is possible exactly when, as SetExpiryTime runs, some goroutine has received
      from an earlier timer and not yet sent. */
  lemma EarlyTickIff(schedule: seq<Action>, i: nat)
    requires Exec(schedule).Some? && i !in Exec(schedule).value.setters
    ensures TicksEarly(Exec(schedule).value, i) <==> SomeSendPending(Exec(schedule).value)
  {
    EveryRun(schedule);
    var s := Exec(schedule).value;
    if SomeSendPending(s) {
      var g :| g in s.handlers && s.handlers[g].SendPending?;
      var t := SetStep(s, i, false);
      assert t.handlers[g] == s.handlers[g];
      assert [Handle(g)][..0] == [];
      assert Continue(t, []) == Some(t);
      assert Continue(t, [Handle(g)]) == Some(HandlerStep(t, g));
    } else {
      forall later
        | NeitherSetNorFired(later, i) && Continue(SetStep(s, i, false), later).Some?
        ensures !Continue(SetStep(s, i, false), later).value.tick
      {
        QuietWhileArmed(s, i, later);
      }
    }
  }

  lemma ExecNext(schedule: seq<Action>, s: State, a: Action) returns (longer: seq<Action>, t: State)
    requires Exec(schedule) == Some(s) && Enabled(s, a)
    ensures longer == schedule + [a] && t == Next(s, a) && Exec(longer) == Some(t)
  {
    longer, t := schedule + [a], Next(s, a);
    assert longer[..|schedule|] == schedule;
  }

  /** ... and it does happen: a tick is out while the only live timer is still armed. */
  lemma EarlyTickHappens()
    ensures exists schedule, s: State :: Exec(schedule) == Some(s) && s.tick && s.timer == By(1) && 1 in s.timers && s.timers[1].Armed?
  {
    var h, s := OneSendPending();
    h, s := ExecNext(h, s, SetExpiryTime(1, false));
    assert s.handlers[0] == SendPending(0);
    h, s := ExecNext(h, s, Handle(0));
  }

  lemma OneSendPending() returns (h: seq<Action>, s: State)
    ensures Exec(h) == Some(s)
    ensures s == State(false, false, By(0), map[0 := Drained], map[0 := SendPending(0)], 0, {}, {0})
  {
    h, s := ExecNext([], INIT, SetExpiryTime(0, false));
    assert s == State(false, false, By(0), map[0 := Armed], map[0 := ReadingTimer], 0, {}, {0});
    h, s := ExecNext(h, s, Handle(0));
    assert s.handlers == map[0 := Selecting(0)];
    h, s := ExecNext(h, s, Fire(0));
    assert s.timers == map[0 := Fired];
    h, s := ExecNext(h, s, Handle(0));
    assert s.handlers == map[0 := SendPending(0)] && s.timers == map[0 := Drained];
  }
}

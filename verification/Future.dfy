/** Future under every interleaving of any number of completers, cancellers and readers, and the
    meaning of chains of Then. */
module Futures {
  import opened Common

  /** What a future is completed with.  `err` is absent for success. */
  datatype Outcome<V, E> = Outcome(value: V, err: Option<E>)

  /** The next operation of one goroutine.  `cancel` marks calls made by Cancel. */
  datatype PC<V, E> =
    | CancelReading                                       // Cancel reads value without the lock
    | Locking(offer: Outcome<V, E>, cancel: bool)
    | Checking(offer: Outcome<V, E>, cancel: bool)
    | WritingValue(offer: Outcome<V, E>, cancel: bool)
    | WritingErr(offer: Outcome<V, E>, cancel: bool)
    | Completing(offer: Outcome<V, E>, cancel: bool)
    | Closing(offer: Outcome<V, E>, cancel: bool)
    | Unlocking
    | AwaitingDone                                        // Get waits for the channel
    | ReadLocking
    | ReadingValue
    | ReadingErr(value: V)
    | ReadUnlocking(result: Outcome<V, E>)
    | Got(result: Outcome<V, E>)
    | Ended

  /** `chosen` and `byCancel` record whose offer was taken; no step reads them. */
  datatype State<V, E> = State(
    writer: Holder,
    readers: set<nat>,
    complete: bool,
    closes: nat,
    value: V,
    err: Option<E>,
    chosen: Option<Outcome<V, E>>,
    byCancel: bool,
    threads: map<nat, PC<V, E>>)

  datatype Action<V, E> =
    | Complete(i: nat, offer: Outcome<V, E>)
    | Cancel(i: nat)
    | Get(i: nat)
    | Advance(i: nat)

  function Init<V, E>(zero: V): State<V, E> {
    State(Nobody, {}, false, 0, zero, None, None, false, map[])
  }

  predicate Enabled<V, E>(s: State<V, E>, a: Action<V, E>) {
    match a
    case Complete(i, _) => i !in s.threads
    case Cancel(i) => i !in s.threads
    case Get(i) => i !in s.threads
    case Advance(i) =>
      i in s.threads &&
      match s.threads[i]
      case Locking(_, _) => s.writer == Nobody && s.readers == {}
      case AwaitingDone => s.closes > 0
      case ReadLocking => s.writer == Nobody
      case Got(_) => false
      case Ended => false
      case _ => true
  }

  function Next<V, E>(s: State<V, E>, a: Action<V, E>, cancelled: E): State<V, E>
    requires Enabled(s, a)
  {
    match a
    case Complete(i, offer) => s.(threads := s.threads[i := Locking(offer, false)])
    case Cancel(i) => s.(threads := s.threads[i := CancelReading])
    case Get(i) => s.(threads := s.threads[i := AwaitingDone])
    case Advance(i) => Operate(s, i, cancelled)
  }

  function Operate<V, E>(s: State<V, E>, i: nat, cancelled: E): State<V, E>
    requires Enabled(s, Advance(i))
  {
    match s.threads[i]
    case CancelReading => s.(threads := s.threads[i := Locking(Outcome(s.value, Some(cancelled)), true)])
    case Locking(offer, cancel) => s.(writer := By(i), threads := s.threads[i := Checking(offer, cancel)])
    case Checking(offer, cancel) =>
      s.(threads := s.threads[i := if s.complete then Unlocking else WritingValue(offer, cancel)])
    case WritingValue(offer, cancel) =>
      s.(value := offer.value, chosen := Some(offer), byCancel := cancel,
         threads := s.threads[i := WritingErr(offer, cancel)])
    case WritingErr(offer, cancel) => s.(err := offer.err, threads := s.threads[i := Completing(offer, cancel)])
    case Completing(offer, cancel) => s.(complete := true, threads := s.threads[i := Closing(offer, cancel)])
    case Closing(_, _) => s.(closes := s.closes + 1, threads := s.threads[i := Unlocking])
    case Unlocking => s.(writer := Nobody, threads := s.threads[i := Ended])
    case AwaitingDone => s.(threads := s.threads[i := ReadLocking])
    case ReadLocking => s.(readers := s.readers + {i}, threads := s.threads[i := ReadingValue])
    case ReadingValue => s.(threads := s.threads[i := ReadingErr(s.value)])
    case ReadingErr(value) => s.(threads := s.threads[i := ReadUnlocking(Outcome(value, s.err))])
    case ReadUnlocking(result) => s.(readers := s.readers - {i}, threads := s.threads[i := Got(result)])
  }

  function Exec<V, E>(schedule: seq<Action<V, E>>, zero: V, cancelled: E): Option<State<V, E>> {
    if schedule == [] then Some(Init(zero))
    else
      match Exec(schedule[..|schedule| - 1], zero, cancelled)
      case None => None
      case Some(s) =>
        var a := schedule[|schedule| - 1];
        if Enabled(s, a) then Some(Next(s, a, cancelled)) else None
  }

  // ----- The inductive invariant -----

  predicate Writing<V, E>(pc: PC<V, E>) {
    pc.Checking? || pc.WritingValue? || pc.WritingErr? || pc.Completing? || pc.Closing? || pc.Unlocking?
  }

  predicate Reading<V, E>(pc: PC<V, E>) {
    pc.ReadingValue? || pc.ReadingErr? || pc.ReadUnlocking?
  }

  ghost predicate ThreadInv<V(!new), E(!new)>(s: State<V, E>, i: nat, pc: PC<V, E>, zero: V, cancelled: E) {
    && (s.writer == By(i) <==> Writing(pc))
    && (i in s.readers <==> Reading(pc))
    && OfferInv(s, pc, zero, cancelled)
    && match pc
       case WritingValue(_, _) => s.chosen == None && s.closes == 0
       case WritingErr(offer, cancel) => s.chosen == Some(offer) && cancel == s.byCancel && !s.complete
       case Completing(offer, cancel) => s.chosen == Some(offer) && cancel == s.byCancel && !s.complete && s.err == offer.err
       case Closing(offer, cancel) => s.chosen == Some(offer) && cancel == s.byCancel && s.complete && s.closes == 0
       case Unlocking => s.closes == 1
       case ReadLocking => s.closes == 1
       case ReadingValue => s.closes == 1
       case ReadingErr(value) => s.closes == 1 && value == s.value
       case ReadUnlocking(result) => s.closes == 1 && Some(result) == s.chosen
       case Got(result) => s.closes == 1 && Some(result) == s.chosen
       case Ended => s.closes == 1
       case _ => true
  }

  /** What a canceller offers is the zero value, unless some offer was already taken. */
  ghost predicate OfferInv<V(!new), E(!new)>(s: State<V, E>, pc: PC<V, E>, zero: V, cancelled: E) {
    (pc.Locking? || pc.Checking? || pc.WritingValue?) && pc.cancel && s.chosen == None ==>
      pc.offer == Outcome(zero, Some(cancelled))
  }

  ghost predicate SharedInv<V(!new), E(!new)>(s: State<V, E>, zero: V, cancelled: E) {
    && (s.writer.By? ==> s.writer.id in s.threads && s.readers == {})
    && s.readers <= s.threads.Keys
    && (s.chosen == None ==> s.value == zero && s.err == None && !s.complete && s.closes == 0)
    && (s.chosen.Some? ==> s.value == s.chosen.value.value)
    && (s.chosen.Some? && s.byCancel ==> s.chosen == Some(Outcome(zero, Some(cancelled))))
    && (s.complete ==> s.chosen == Some(Outcome(s.value, s.err)))
    && s.closes <= 1
    && (s.closes == 1 ==> s.complete)
    && (s.chosen.Some? && s.closes == 0 ==>
          s.writer.By? &&
          var pc := s.threads[s.writer.id]; pc.WritingErr? || pc.Completing? || pc.Closing?)
  }

  ghost predicate Inv<V(!new), E(!new)>(s: State<V, E>, zero: V, cancelled: E) {
    && SharedInv(s, zero, cancelled)
    && forall i :: i in s.threads ==> ThreadInv(s, i, s.threads[i], zero, cancelled)
  }

  lemma OthersKeep<V(!new), E(!new)>(s: State<V, E>, i: nat, t: State<V, E>, j: nat, zero: V, cancelled: E)
    requires Inv(s, zero, cancelled) && Enabled(s, Advance(i)) && t == Operate(s, i, cancelled)
    requires j in s.threads && j != i
    ensures j in t.threads && ThreadInv(t, j, t.threads[j], zero, cancelled)
  {
    assert ThreadInv(s, i, s.threads[i], zero, cancelled) && ThreadInv(s, j, s.threads[j], zero, cancelled);
  }

  lemma WriterKeeps<V(!new), E(!new)>(s: State<V, E>, i: nat, t: State<V, E>, zero: V, cancelled: E)
    requires Inv(s, zero, cancelled) && Enabled(s, Advance(i)) && t == Operate(s, i, cancelled)
    requires Writing(s.threads[i])
    ensures i in t.threads && ThreadInv(t, i, t.threads[i], zero, cancelled)
  {
    assert ThreadInv(s, i, s.threads[i], zero, cancelled);
  }

  lemma NonWriterKeeps<V(!new), E(!new)>(s: State<V, E>, i: nat, t: State<V, E>, zero: V, cancelled: E)
    requires Inv(s, zero, cancelled) && Enabled(s, Advance(i)) && t == Operate(s, i, cancelled)
    requires !Writing(s.threads[i])
    ensures i in t.threads && ThreadInv(t, i, t.threads[i], zero, cancelled)
  {
    assert ThreadInv(s, i, s.threads[i], zero, cancelled);
  }

  lemma SharedKeeps<V(!new), E(!new)>(s: State<V, E>, i: nat, t: State<V, E>, zero: V, cancelled: E)
    requires Inv(s, zero, cancelled) && Enabled(s, Advance(i)) && t == Operate(s, i, cancelled)
    ensures SharedInv(t, zero, cancelled)
  {
    assert ThreadInv(s, i, s.threads[i], zero, cancelled);
  }

  lemma OperateKeepsInv<V(!new), E(!new)>(s: State<V, E>, i: nat, zero: V, cancelled: E)
    requires Inv(s, zero, cancelled) && Enabled(s, Advance(i))
    ensures Inv(Operate(s, i, cancelled), zero, cancelled)
  {
    var t := Operate(s, i, cancelled);
    forall j | j in t.threads ensures ThreadInv(t, j, t.threads[j], zero, cancelled) {
      if j != i { OthersKeep(s, i, t, j, zero, cancelled); }
      else if Writing(s.threads[i]) { WriterKeeps(s, i, t, zero, cancelled); }
      else { NonWriterKeeps(s, i, t, zero, cancelled); }
    }
    SharedKeeps(s, i, t, zero, cancelled);
  }

  lemma EntryKeepsInv<V(!new), E(!new)>(s: State<V, E>, i: nat, pc: PC<V, E>, zero: V, cancelled: E)
    requires Inv(s, zero, cancelled) && i !in s.threads
    requires pc.CancelReading? || pc.AwaitingDone? || (pc.Locking? && !pc.cancel)
    ensures Inv(s.(threads := s.threads[i := pc]), zero, cancelled)
  {
    var t := s.(threads := s.threads[i := pc]);
    forall j | j in t.threads ensures ThreadInv(t, j, t.threads[j], zero, cancelled) {
      if j != i { assert ThreadInv(s, j, s.threads[j], zero, cancelled); }
    }
  }

  lemma StepKeepsInv<V(!new), E(!new)>(s: State<V, E>, a: Action<V, E>, zero: V, cancelled: E)
    requires Inv(s, zero, cancelled) && Enabled(s, a)
    ensures Inv(Next(s, a, cancelled), zero, cancelled)
  {
    match a
    case Complete(i, offer) => EntryKeepsInv(s, i, Locking(offer, false), zero, cancelled);
    case Cancel(i) => EntryKeepsInv(s, i, CancelReading, zero, cancelled);
    case Get(i) => EntryKeepsInv(s, i, AwaitingDone, zero, cancelled);
    case Advance(i) => OperateKeepsInv(s, i, zero, cancelled);
  }

  lemma {:induction false} EveryRun<V(!new), E(!new)>(schedule: seq<Action<V, E>>, zero: V, cancelled: E)
    requires Exec(schedule, zero, cancelled).Some?
    ensures Inv(Exec(schedule, zero, cancelled).value, zero, cancelled)
  {
    if schedule != [] {
      var front := schedule[..|schedule| - 1];
      EveryRun(front, zero, cancelled);
      StepKeepsInv(Exec(front, zero, cancelled).value, schedule[|schedule| - 1], zero, cancelled);
    }
  }

  // ----- What every run guarantees -----

  /** The channel is closed at most once, and outside the lock exactly when `complete` is set;
      after a call of Complete or Cancel returned it is complete; all readers that return get the one outcome the future holds; a future completed by Cancel
      holds the zero value and the cancellation error, although Cancel reads without the lock. */
  lemma FutureSafety<V(!new), E(!new)>(schedule: seq<Action<V, E>>, zero: V, cancelled: E)
    requires Exec(schedule, zero, cancelled).Some?
    ensures var s := Exec(schedule, zero, cancelled).value;
      && s.closes <= 1
      && (s.writer == Nobody ==> (s.complete <==> s.closes == 1))
      && (forall i :: i in s.threads && s.threads[i].Got? ==> s.complete && s.threads[i].result == Outcome(s.value, s.err))
      && (forall i :: i in s.threads && s.threads[i].Ended? ==> s.complete && s.closes == 1)
      && (s.complete && s.byCancel ==> Outcome(s.value, s.err) == Outcome(zero, Some(cancelled)))
  {
    EveryRun(schedule, zero, cancelled);
    var s := Exec(schedule, zero, cancelled).value;
    forall i | i in s.threads && s.threads[i].Got? ensures s.threads[i].result == Outcome(s.value, s.err) {
      assert ThreadInv(s, i, s.threads[i], zero, cancelled);
    }
    forall i | i in s.threads && s.threads[i].Ended? ensures s.complete && s.closes == 1 {
      assert ThreadInv(s, i, s.threads[i], zero, cancelled);
    }
  }

  /** Once complete at some point of a run, the outcome is the same at every later point. */
  lemma {:induction false} SingleAssignment<V(!new), E(!new)>(schedule: seq<Action<V, E>>, k: nat, zero: V, cancelled: E)
    requires k <= |schedule| && Exec(schedule, zero, cancelled).Some?
    ensures Exec(schedule[..k], zero, cancelled).Some?
    ensures var early, late := Exec(schedule[..k], zero, cancelled).value, Exec(schedule, zero, cancelled).value;
      early.complete ==> late.complete && late.value == early.value && late.err == early.err
    decreases |schedule|
  {
    if k == |schedule| {
      assert schedule[..k] == schedule;
    } else {
      var front := schedule[..|schedule| - 1];
      assert front[..k] == schedule[..k];
      SingleAssignment(front, k, zero, cancelled);
      EveryRun(front, zero, cancelled);
      if Exec(front, zero, cancelled).value.complete {
        CompleteIsStable(Exec(front, zero, cancelled).value, schedule[|schedule| - 1], zero, cancelled);
      }
    }
  }

  lemma CompleteIsStable<V(!new), E(!new)>(s: State<V, E>, a: Action<V, E>, zero: V, cancelled: E)
    requires Inv(s, zero, cancelled) && Enabled(s, a) && s.complete
    ensures var t := Next(s, a, cancelled); t.complete && t.value == s.value && t.err == s.err
  {
    if a.Advance? {
      assert ThreadInv(s, a.i, s.threads[a.i], zero, cancelled);
    }
  }

  ghost predicate Offered<V(!new), E(!new)>(schedule: seq<Action<V, E>>, offer: Outcome<V, E>) {
    exists k :: 0 <= k < |schedule| && schedule[k].Complete? && schedule[k].offer == offer
  }

  lemma OffersStay<V(!new), E(!new)>(schedule: seq<Action<V, E>>, n: nat)
    requires n <= |schedule|
    ensures forall offer :: Offered(schedule[..n], offer) ==> Offered(schedule, offer)
  {
    forall offer | Offered(schedule[..n], offer) ensures Offered(schedule, offer) {
      var k :| 0 <= k < n && schedule[..n][k].Complete? && schedule[..n][k].offer == offer;
      assert schedule[k].Complete? && schedule[k].offer == offer;
    }
  }

  predicate HasOffer<V, E>(pc: PC<V, E>) {
    pc.Locking? || pc.Checking? || pc.WritingValue? || pc.WritingErr? || pc.Completing? || pc.Closing?
  }

  predicate FromCancel<V, E>(pc: PC<V, E>) {
    pc.CancelReading? || (HasOffer(pc) && pc.cancel)
  }

  ghost predicate CancelCalled<V(!new), E(!new)>(schedule: seq<Action<V, E>>) {
    exists k :: 0 <= k < |schedule| && schedule[k].Cancel?
  }

  lemma CancelsComeIn<V(!new), E(!new)>(s: State<V, E>, a: Action<V, E>, cancelled: E)
    requires Enabled(s, a)
    ensures forall i :: i in Next(s, a, cancelled).threads && FromCancel(Next(s, a, cancelled).threads[i]) ==>
              a.Cancel? || (i in s.threads && FromCancel(s.threads[i]))
  {
  }

  lemma {:induction false} CancelsWereMade<V(!new), E(!new)>(schedule: seq<Action<V, E>>, zero: V, cancelled: E)
    requires Exec(schedule, zero, cancelled).Some?
    ensures var s := Exec(schedule, zero, cancelled).value;
      && (s.chosen.Some? && s.byCancel ==> CancelCalled(schedule))
      && (forall i :: i in s.threads && FromCancel(s.threads[i]) ==> CancelCalled(schedule))
  {
    if schedule != [] {
      var n := |schedule| - 1;
      CancelsWereMade(schedule[..n], zero, cancelled);
      CancelsComeIn(Exec(schedule[..n], zero, cancelled).value, schedule[n], cancelled);
      OffersComeIn(Exec(schedule[..n], zero, cancelled).value, schedule[n], cancelled);
      assert CancelCalled(schedule[..n]) ==> CancelCalled(schedule) by {
        assert forall k :: 0 <= k < n ==> schedule[..n][k] == schedule[k];
      }
    }
  }

  /** t takes the offer of goroutine j. */
  ghost predicate TakenFrom<V(!new), E(!new)>(s: State<V, E>, t: State<V, E>, j: nat) {
    && j in s.threads && HasOffer(s.threads[j])
    && t.chosen == Some(s.threads[j].offer) && t.byCancel == s.threads[j].cancel
  }

  /** Every offer in play was there before, or a call of Complete brings it. */
  lemma OffersComeIn<V(!new), E(!new)>(s: State<V, E>, a: Action<V, E>, cancelled: E)
    requires Enabled(s, a)
    ensures var t := Next(s, a, cancelled);
      && ((t.chosen == s.chosen && t.byCancel == s.byCancel) || exists j :: TakenFrom(s, t, j))
      && (forall i :: i in t.threads && HasOffer(t.threads[i]) && !t.threads[i].cancel ==>
            (a.Complete? && a.offer == t.threads[i].offer) ||
            (i in s.threads && HasOffer(s.threads[i]) && !s.threads[i].cancel && s.threads[i].offer == t.threads[i].offer))
  {
    if a.Advance? && s.threads[a.i].WritingValue? { assert TakenFrom(s, Next(s, a, cancelled), a.i); }
  }

  lemma {:induction false} OffersWereMade<V(!new), E(!new)>(schedule: seq<Action<V, E>>, zero: V, cancelled: E)
    requires Exec(schedule, zero, cancelled).Some?
    ensures var s := Exec(schedule, zero, cancelled).value;
      && (s.chosen.Some? && !s.byCancel ==> Offered(schedule, s.chosen.value))
      && (forall i :: i in s.threads && HasOffer(s.threads[i]) && !s.threads[i].cancel ==> Offered(schedule, s.threads[i].offer))
  {
    if schedule != [] {
      var n := |schedule| - 1;
      OffersWereMade(schedule[..n], zero, cancelled);
      OffersComeIn(Exec(schedule[..n], zero, cancelled).value, schedule[n], cancelled);
      OffersStay(schedule, n);
      assert schedule[n].Complete? ==> Offered(schedule, schedule[n].offer);
    }
  }

  /** The outcome is exactly what some caller of Complete passed, or Cancel was called and it is the
      cancellation. */
  lemma OutcomeWasOffered<V(!new), E(!new)>(schedule: seq<Action<V, E>>, zero: V, cancelled: E)
    requires Exec(schedule, zero, cancelled).Some? && Exec(schedule, zero, cancelled).value.complete
    ensures var s := Exec(schedule, zero, cancelled).value;
      Offered(schedule, Outcome(s.value, s.err)) ||
      (CancelCalled(schedule) && Outcome(s.value, s.err) == Outcome(zero, Some(cancelled)))
  {
    OffersWereMade(schedule, zero, cancelled);
    CancelsWereMade(schedule, zero, cancelled);
    EveryRun(schedule, zero, cancelled);
  }

  /** Some goroutine can always go on, unless all that are left wait for a completion that
      nobody has started. */
  lemma NeverStuck<V(!new), E(!new)>(schedule: seq<Action<V, E>>, i: nat, zero: V, cancelled: E)
    requires Exec(schedule, zero, cancelled).Some? && i in Exec(schedule, zero, cancelled).value.threads
    requires var pc := Exec(schedule, zero, cancelled).value.threads[i]; !pc.Got? && !pc.Ended?
    ensures var s := Exec(schedule, zero, cancelled).value;
      (s.threads[i].AwaitingDone? && s.closes == 0) || exists j :: Enabled(s, Advance(j))
  {
    EveryRun(schedule, zero, cancelled);
    var s := Exec(schedule, zero, cancelled).value;
    if s.writer.By? {
      assert ThreadInv(s, s.writer.id, s.threads[s.writer.id], zero, cancelled);
      assert Enabled(s, Advance(s.writer.id));
    } else if s.readers != {} {
      var j :| j in s.readers;
      assert ThreadInv(s, j, s.threads[j], zero, cancelled);
      assert Enabled(s, Advance(j));
    } else if !(s.threads[i].AwaitingDone? && s.closes == 0) {
      assert Enabled(s, Advance(i));
    }
  }

  // ----- Complete and Cancel as single steps -----

  /** The outcome as readers see it. */
  function Held<V, E>(s: State<V, E>): Option<Outcome<V, E>> {
    if s.complete then Some(Outcome(s.value, s.err)) else None
  }

  /** The first offer stays. */
  function Settle<V, E>(f: Option<Outcome<V, E>>, o: Outcome<V, E>): Option<Outcome<V, E>> {
    if f.Some? then f else Some(o)
  }

  function SettleAll<V, E>(offers: seq<Outcome<V, E>>): Option<Outcome<V, E>> {
    if offers == [] then None else Settle(SettleAll(offers[..|offers| - 1]), offers[|offers| - 1])
  }

  /** The one step at which a call of Complete or Cancel takes effect: it sets `complete`, or finds
      it set. */
  predicate TakesEffect<V, E>(s: State<V, E>, a: Action<V, E>) {
    a.Advance? && a.i in s.threads && (s.threads[a.i].Completing? || (s.threads[a.i].Checking? && s.complete))
  }

  lemma EffectIsSettle<V(!new), E(!new)>(s: State<V, E>, a: Action<V, E>, zero: V, cancelled: E)
    requires Inv(s, zero, cancelled) && Enabled(s, a)
    ensures Held(Next(s, a, cancelled)) ==
      if TakesEffect(s, a) then Settle(Held(s), s.threads[a.i].offer) else Held(s)
  {
    if a.Advance? {
      assert ThreadInv(s, a.i, s.threads[a.i], zero, cancelled);
    }
  }

  /** The offers of a run in the order in which they take effect. */
  function Effects<V, E>(schedule: seq<Action<V, E>>, zero: V, cancelled: E): seq<Outcome<V, E>> {
    if schedule == [] then []
    else
      var front, a := schedule[..|schedule| - 1], schedule[|schedule| - 1];
      Effects(front, zero, cancelled) +
      match Exec(front, zero, cancelled)
      case None => []
      case Some(s) => if TakesEffect(s, a) then [s.threads[a.i].offer] else []
  }

  lemma {:induction false} FirstOfferStays<V, E>(offers: seq<Outcome<V, E>>)
    ensures SettleAll(offers) == if offers == [] then None else Some(offers[0])
    decreases |offers|
  {
    if offers != [] { FirstOfferStays(offers[..|offers| - 1]); }
  }

  /** Whatever the interleaving, the future holds what its calls leave when each is one Settle: the
      first offer in the order in which they take effect. */
  lemma {:induction false} RunIsSettles<V(!new), E(!new)>(schedule: seq<Action<V, E>>, zero: V, cancelled: E)
    requires Exec(schedule, zero, cancelled).Some?
    ensures Held(Exec(schedule, zero, cancelled).value) == SettleAll(Effects(schedule, zero, cancelled))
    decreases |schedule|
  {
    if schedule != [] {
      var front, a := schedule[..|schedule| - 1], schedule[|schedule| - 1];
      RunIsSettles(front, zero, cancelled);
      EveryRun(front, zero, cancelled);
      var s := Exec(front, zero, cancelled).value;
      EffectIsSettle(s, a, zero, cancelled);
      if TakesEffect(s, a) {
        SettleNext(Effects(front, zero, cancelled), s.threads[a.i].offer);
      } else {
        assert Effects(schedule, zero, cancelled) == Effects(front, zero, cancelled);
      }
    }
  }

  lemma SettleNext<V, E>(offers: seq<Outcome<V, E>>, o: Outcome<V, E>)
    ensures SettleAll(offers + [o]) == Settle(SettleAll(offers), o)
  {
    assert (offers + [o])[..|offers|] == offers;
  }

  function EffectsOf<V, E>(schedule: seq<Action<V, E>>, i: nat, zero: V, cancelled: E): nat {
    if schedule == [] then 0
    else
      var front, a := schedule[..|schedule| - 1], schedule[|schedule| - 1];
      EffectsOf(front, i, zero, cancelled) +
      match Exec(front, zero, cancelled)
      case None => 0
      case Some(s) => EffectOf(s, a, i)
  }

  function EffectOf<V, E>(s: State<V, E>, a: Action<V, E>, i: nat): nat {
    if TakesEffect(s, a) && a.i == i then 1 else 0
  }

  lemma EffectOnce<V, E>(s: State<V, E>, a: Action<V, E>, i: nat, cancelled: E)
    requires Enabled(s, a)
    ensures HasTakenEffect(Next(s, a, cancelled), i) <==> HasTakenEffect(s, i) || EffectOf(s, a, i) == 1
    ensures !(HasTakenEffect(s, i) && EffectOf(s, a, i) == 1)
  {
  }

  predicate HasTakenEffect<V, E>(s: State<V, E>, i: nat) {
    i in s.threads && (s.threads[i].Closing? || s.threads[i].Unlocking? || s.threads[i].Ended?)
  }

  /** Each call of Complete or Cancel takes effect once, before it returns; readers never do. */
  lemma {:induction false} OneEffectEach<V(!new), E(!new)>(schedule: seq<Action<V, E>>, i: nat, zero: V, cancelled: E)
    requires Exec(schedule, zero, cancelled).Some?
    ensures EffectsOf(schedule, i, zero, cancelled) ==
      if HasTakenEffect(Exec(schedule, zero, cancelled).value, i) then 1 else 0
    decreases |schedule|
  {
    if schedule != [] {
      var front := schedule[..|schedule| - 1];
      OneEffectEach(front, i, zero, cancelled);
      EffectOnce(Exec(front, zero, cancelled).value, schedule[|schedule| - 1], i, cancelled);
    }
  }
}

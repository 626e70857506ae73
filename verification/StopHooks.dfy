/** Stopper.Go and Stopper.GoWaitStop under every interleaving of any number of goroutines. */
module StopHooks {
  import opened Common

  /** The next operation of a goroutine started by Go.  After fn ends, by return or by panic, the
      deferred calls run in reverse order: first Done, then the Once that closes the trigger. */
  datatype WorkerPC =
    | Adding
    | Running
    | Finishing
    | OnceCheck
    | OnceLocking
    | OnceClosing
    | OnceMarking
    | OnceUnlocking
    | Ended

  /** The next operation of a goroutine started by GoWaitStop.  WaitGroup.Wait looks at the counter
      and, if it is not zero, parks; the Done that brings it to zero wakes all parked hooks; a woken
      one looks again and panics if the counter has moved on.  Such a hook is lost: the panic is
      recovered, and its function never runs. */
  datatype HookPC =
    | AwaitingTrigger
    | AwaitingCounter
    | Parked
    | Woken
    | HookRunning
    | HookEnded
    | Lost

  datatype State = State(
    counter: int,
    closes: nat,
    onceDone: bool,
    onceLock: Holder,
    workers: map<nat, WorkerPC>,
    hooks: map<nat, HookPC>)

  datatype Action =
    | Go(w: nat)
    | GoWaitStop(h: nat)
    | Work(w: nat)
    | Hook(h: nat)

  const INIT: State := State(0, 0, false, Nobody, map[], map[])

  /** `final` is the stop type: only a final stop keeps the wait counter. */
  predicate Enabled(s: State, a: Action) {
    match a
    case Go(w) => w !in s.workers
    case GoWaitStop(h) => h !in s.hooks
    case Work(w) =>
      && w in s.workers
      && !s.workers[w].Ended?
      && (s.workers[w].OnceLocking? ==> s.onceLock == Nobody)
    case Hook(h) =>
      && h in s.hooks
      && !s.hooks[h].HookEnded? && !s.hooks[h].Lost? && !s.hooks[h].Parked?
      && (s.hooks[h].AwaitingTrigger? ==> s.closes > 0)
  }

  function Next(s: State, a: Action, final: bool): State
    requires Enabled(s, a)
  {
    match a
    case Go(w) => s.(workers := s.workers[w := if final then Adding else Running])
    case GoWaitStop(h) => s.(hooks := s.hooks[h := AwaitingTrigger])
    case Work(w) => WorkStep(s, w, final)
    case Hook(h) => HookStep(s, h, final)
  }

  function WorkStep(s: State, w: nat, final: bool): State
    requires Enabled(s, Work(w))
  {
    match s.workers[w]
    case Adding => s.(counter := s.counter + 1, workers := s.workers[w := Running])
    case Running => s.(workers := s.workers[w := if final then Finishing else OnceCheck])
    case Finishing =>
      s.(counter := s.counter - 1, workers := s.workers[w := OnceCheck],
         hooks := if s.counter == 1 then WakeAll(s.hooks) else s.hooks)
    case OnceCheck => s.(workers := s.workers[w := if s.onceDone then Ended else OnceLocking])
    case OnceLocking =>
      s.(onceLock := By(w), workers := s.workers[w := if s.onceDone then OnceUnlocking else OnceClosing])
    case OnceClosing => s.(closes := s.closes + 1, workers := s.workers[w := OnceMarking])
    case OnceMarking => s.(onceDone := true, workers := s.workers[w := OnceUnlocking])
    case OnceUnlocking => s.(onceLock := Nobody, workers := s.workers[w := Ended])
  }

  function WakeAll(hooks: map<nat, HookPC>): map<nat, HookPC> {
    map h | h in hooks :: if hooks[h].Parked? then Woken else hooks[h]
  }

  function HookStep(s: State, h: nat, final: bool): State
    requires Enabled(s, Hook(h))
  {
    match s.hooks[h]
    case AwaitingTrigger => s.(hooks := s.hooks[h := if final then AwaitingCounter else HookRunning])
    case AwaitingCounter => s.(hooks := s.hooks[h := if s.counter == 0 then HookRunning else Parked])
    case Woken => s.(hooks := s.hooks[h := if s.counter == 0 then HookRunning else Lost])
    case HookRunning => s.(hooks := s.hooks[h := HookEnded])
  }

  /** The workers between Add and Done. */
  function Active(s: State): set<nat> {
    set w | w in s.workers && Busy(s.workers[w])
  }

  predicate Busy(pc: WorkerPC) {
    pc.Running? || pc.Finishing?
  }

  function Exec(schedule: seq<Action>, final: bool): Option<State> {
    if schedule == [] then Some(INIT)
    else
      match Exec(schedule[..|schedule| - 1], final)
      case None => None
      case Some(s) =>
        var a := schedule[|schedule| - 1];
        if Enabled(s, a) then Some(Next(s, a, final)) else None
  }

  // ----- The inductive invariant -----

  /** fn has ended and its Done, if any, has run. */
  predicate Past(pc: WorkerPC) {
    !pc.Adding? && !pc.Running? && !pc.Finishing?
  }

  ghost predicate SomePast(s: State) {
    exists w :: w in s.workers && Past(s.workers[w])
  }

  ghost predicate WorkerInv(s: State, w: nat, pc: WorkerPC, final: bool) {
    && (s.onceLock == By(w) <==> pc.OnceClosing? || pc.OnceMarking? || pc.OnceUnlocking?)
    && (pc.OnceClosing? ==> s.closes == 0 && !s.onceDone)
    && (pc.OnceMarking? ==> s.closes == 1 && !s.onceDone)
    && (pc.OnceUnlocking? || pc.Ended? ==> s.onceDone)
    && (pc.Adding? || pc.Finishing? ==> final)
  }

  ghost predicate HookInv(s: State, pc: HookPC, final: bool) {
    match pc
    case AwaitingTrigger => true
    case AwaitingCounter => s.closes == 1 && final
    case Parked => s.closes == 1 && final && s.counter > 0
    case Woken => s.closes == 1 && final
    case Lost => s.closes == 1 && final
    case HookRunning => s.closes == 1
    case HookEnded => s.closes == 1
  }

  ghost predicate SharedInv(s: State, final: bool) {
    && s.counter == (if final then |Active(s)| else 0)
    && s.closes <= 1
    && (s.closes == 1 ==> SomePast(s))
    && (s.onceDone ==> s.closes == 1)
    && (s.onceLock.By? ==> s.onceLock.id in s.workers)
    && (s.closes == 1 && !s.onceDone ==> s.onceLock.By? && s.workers[s.onceLock.id].OnceMarking?)
  }

  ghost predicate Inv(s: State, final: bool) {
    && SharedInv(s, final)
    && (forall w :: w in s.workers ==> WorkerInv(s, w, s.workers[w], final))
    && (forall h :: h in s.hooks ==> HookInv(s, s.hooks[h], final))
  }

  /** A step of worker w changes who is active by w alone. */
  lemma ActiveAfter(s: State, w: nat, pc: WorkerPC, t: State)
    requires t.workers == s.workers[w := pc]
    ensures |Active(t)| == |Active(s)| - (if w in s.workers && Busy(s.workers[w]) then 1 else 0) + (if Busy(pc) then 1 else 0)
  {
    var rest := Active(s) - {w};
    assert Active(s) == if w in s.workers && Busy(s.workers[w]) then rest + {w} else rest;
    assert Active(t) == if Busy(pc) then rest + {w} else rest;
  }

  lemma PastStays(s: State, w: nat, t: State)
    requires t.workers.Keys == s.workers.Keys + {w}
    requires forall v :: v in s.workers && v != w ==> t.workers[v] == s.workers[v]
    requires w in s.workers && Past(s.workers[w]) ==> Past(t.workers[w])
    ensures SomePast(s) ==> SomePast(t)
  {
    if SomePast(s) {
      var v :| v in s.workers && Past(s.workers[v]);
      assert v in t.workers && Past(t.workers[v]);
    }
  }

  lemma GoKeepsInv(s: State, w: nat, final: bool)
    requires Inv(s, final) && w !in s.workers
    ensures Inv(Next(s, Go(w), final), final)
  {
    var t := Next(s, Go(w), final);
    PastStays(s, w, t);
    ActiveAfter(s, w, t.workers[w], t);
    forall v | v in t.workers ensures WorkerInv(t, v, t.workers[v], final) {
      assert v != w ==> WorkerInv(s, v, s.workers[v], final);
    }
    assert forall h :: h in t.hooks ==> HookInv(s, s.hooks[h], final);
  }

  lemma OtherWorkers(s: State, w: nat, t: State, v: nat, final: bool)
    requires Inv(s, final) && Enabled(s, Work(w)) && t == WorkStep(s, w, final)
    requires v in s.workers
    ensures v in t.workers && WorkerInv(t, v, t.workers[v], final)
  {
    assert WorkerInv(s, w, s.workers[w], final) && WorkerInv(s, v, s.workers[v], final);
  }

  lemma WorkKeepsInv(s: State, w: nat, final: bool)
    requires Inv(s, final) && Enabled(s, Work(w))
    ensures Inv(WorkStep(s, w, final), final)
  {
    var t := WorkStep(s, w, final);
    PastStays(s, w, t);
    ActiveAfter(s, w, t.workers[w], t);
    assert WorkerInv(s, w, s.workers[w], final);
    assert w in t.workers && (t.closes > s.closes ==> Past(t.workers[w]));
    forall v | v in t.workers ensures WorkerInv(t, v, t.workers[v], final) {
      OtherWorkers(s, w, t, v, final);
    }
    forall h | h in t.hooks ensures HookInv(t, t.hooks[h], final) {
      HooksUndisturbed(s, w, t, h, final);
    }
  }

  lemma HooksUndisturbed(s: State, w: nat, t: State, h: nat, final: bool)
    requires Inv(s, final) && Enabled(s, Work(w)) && t == WorkStep(s, w, final) && h in s.hooks
    ensures h in t.hooks && HookInv(t, t.hooks[h], final)
  {
    assert HookInv(s, s.hooks[h], final) && WorkerInv(s, w, s.workers[w], final);
    ActiveAfter(s, w, t.workers[w], t);
  }

  lemma HookKeepsInv(s: State, h: nat, final: bool)
    requires Inv(s, final) && Enabled(s, Hook(h))
    ensures Inv(HookStep(s, h, final), final)
  {
    var t := HookStep(s, h, final);
    assert Active(t) == Active(s);
    assert HookInv(s, s.hooks[h], final);
    assert SomePast(s) ==> SomePast(t);
    forall g | g in t.hooks ensures HookInv(t, t.hooks[g], final) {
      assert HookInv(s, s.hooks[g], final);
    }
    forall w | w in t.workers ensures WorkerInv(t, w, t.workers[w], final) {
      assert WorkerInv(s, w, s.workers[w], final);
    }
  }

  lemma CounterZeroMeansPast(s: State, final: bool)
    requires Inv(s, final) && final && s.counter == 0
    ensures forall w :: w in s.workers && !s.workers[w].Adding? ==> Past(s.workers[w])
  {
    assert Active(s) == {};
    forall w | w in s.workers && !s.workers[w].Adding? ensures Past(s.workers[w]) {
      assert w !in Active(s);
    }
  }

  lemma StepKeepsInv(s: State, a: Action, final: bool)
    requires Inv(s, final) && Enabled(s, a)
    ensures Inv(Next(s, a, final), final)
  {
    match a
    case Go(w) => GoKeepsInv(s, w, final);
    case GoWaitStop(h) =>
      var t := s.(hooks := s.hooks[h := AwaitingTrigger]);
      assert Active(t) == Active(s);
      assert forall w :: w in s.workers ==> WorkerInv(s, w, s.workers[w], final);
      assert forall g :: g in s.hooks ==> HookInv(s, s.hooks[g], final);
      assert SomePast(s) ==> SomePast(t);
      assert Inv(t, final);
    case Work(w) => WorkKeepsInv(s, w, final);
    case Hook(h) => HookKeepsInv(s, h, final);
  }

  lemma {:induction false} EveryRun(schedule: seq<Action>, final: bool)
    requires Exec(schedule, final).Some?
    ensures Inv(Exec(schedule, final).value, final)
  {
    if schedule != [] {
      var front := schedule[..|schedule| - 1];
      EveryRun(front, final);
      StepKeepsInv(Exec(front, final).value, schedule[|schedule| - 1], final);
    }
  }

  // ----- Ordering, in every run -----

  /** The wait counter counts exactly the functions between Add and Done, and is never negative;
      the trigger is closed at most once. */
  lemma CounterIsExact(schedule: seq<Action>, final: bool)
    requires Exec(schedule, final).Some?
    ensures var s := Exec(schedule, final).value;
      s.counter == (if final then |Active(s)| else 0) && s.closes <= 1
  {
    EveryRun(schedule, final);
  }

  /** A hook runs only after some function has ended and its Done has run. */
  lemma HookFollowsAFunction(schedule: seq<Action>, h: nat, final: bool)
    requires Exec(schedule, final).Some? && h in Exec(schedule, final).value.hooks
    requires var pc := Exec(schedule, final).value.hooks[h]; pc.HookRunning? || pc.HookEnded?
    ensures var s := Exec(schedule, final).value; s.closes == 1 && SomePast(s)
  {
    EveryRun(schedule, final);
    assert HookInv(Exec(schedule, final).value, Exec(schedule, final).value.hooks[h], final);
  }

  /** The next step of hook h runs its function. */
  predicate LetsThrough(s: State, h: nat, final: bool) {
    Enabled(s, Hook(h)) && !s.hooks[h].HookRunning? && HookStep(s, h, final).hooks[h].HookRunning?
  }

  /** A final stop lets a hook through only at an instant when the trigger is closed and every
      function that has passed Add has also passed Done. */
  lemma HookPassesWhenIdle(schedule: seq<Action>, h: nat)
    requires Exec(schedule, true).Some? && LetsThrough(Exec(schedule, true).value, h, true)
    ensures var s := Exec(schedule, true).value;
      && s.closes == 1 && Active(s) == {}
      && forall w :: w in s.workers && !s.workers[w].Adding? ==> Past(s.workers[w])
  {
    EveryRun(schedule, true);
    var s := Exec(schedule, true).value;
    assert HookInv(s, s.hooks[h], true);
    CounterZeroMeansPast(s, true);
  }

  ghost predicate HookRanBy(schedule: seq<Action>, h: nat, final: bool) {
    exists k :: 0 <= k <= |schedule| && HookRunsAt(schedule[..k], h, final)
  }

  predicate HookRunsAt(schedule: seq<Action>, h: nat, final: bool) {
    Exec(schedule, final).Some? && h in Exec(schedule, final).value.hooks && Exec(schedule, final).value.hooks[h].HookRunning?
  }

  ghost predicate WorkerRanBy(schedule: seq<Action>, w: nat, final: bool) {
    exists k :: 0 <= k <= |schedule| && WorkerRunsAt(schedule[..k], w, final)
  }

  predicate WorkerRunsAt(schedule: seq<Action>, w: nat, final: bool) {
    Exec(schedule, final).Some? && w in Exec(schedule, final).value.workers && Exec(schedule, final).value.workers[w].Running?
  }

  lemma RanByThen(schedule: seq<Action>, n: nat, final: bool)
    requires n <= |schedule|
    ensures forall h :: HookRanBy(schedule[..n], h, final) ==> HookRanBy(schedule, h, final)
    ensures forall w :: WorkerRanBy(schedule[..n], w, final) ==> WorkerRanBy(schedule, w, final)
  {
    assert forall k :: 0 <= k <= n ==> schedule[..n][..k] == schedule[..k];
  }

  predicate Leaving(pc: WorkerPC) {
    pc.Finishing? || Past(pc)
  }

  lemma OnlyRunnersEnd(s: State, a: Action, final: bool)
    requires Enabled(s, a)
    ensures var t := Next(s, a, final);
      && (forall h :: h in t.hooks && t.hooks[h].HookEnded? ==> h in s.hooks && (s.hooks[h].HookRunning? || s.hooks[h].HookEnded?))
      && (forall w :: w in t.workers && Leaving(t.workers[w]) ==>
            w in s.workers && (s.workers[w].Running? || Leaving(s.workers[w])))
  {
  }

  /** A hook that has ended has run its function before, and so has a worker on its way out. */
  lemma {:induction false} EndedHasRun(schedule: seq<Action>, final: bool)
    requires Exec(schedule, final).Some?
    ensures forall h :: h in Exec(schedule, final).value.hooks && Exec(schedule, final).value.hooks[h].HookEnded? ==>
              HookRanBy(schedule, h, final)
    ensures forall w :: w in Exec(schedule, final).value.workers && Leaving(Exec(schedule, final).value.workers[w]) ==>
              WorkerRanBy(schedule, w, final)
    decreases |schedule|
  {
    if schedule != [] {
      var n := |schedule| - 1;
      EndedHasRun(schedule[..n], final);
      RanByThen(schedule, n, final);
      var s, t := Exec(schedule[..n], final).value, Exec(schedule, final).value;
      OnlyRunnersEnd(s, schedule[n], final);
      forall h | h in t.hooks && t.hooks[h].HookEnded? ensures HookRanBy(schedule, h, final) {
        if s.hooks[h].HookRunning? { assert HookRunsAt(schedule[..n], h, final); }
      }
      forall w | w in t.workers && Leaving(t.workers[w]) ensures WorkerRanBy(schedule, w, final) {
        if s.workers[w].Running? { assert WorkerRunsAt(schedule[..n], w, final); }
      }
    }
  }

  // ----- Hooks that come through, and hooks that are lost -----

  /** A function passes Add although the trigger is already closed. */
  predicate LateAdd(s: State, a: Action) {
    a.Work? && a.w in s.workers && s.workers[a.w].Adding? && s.closes > 0
  }

  predicate NoLateAdd(schedule: seq<Action>, final: bool) {
    schedule == [] ||
    var front, a := schedule[..|schedule| - 1], schedule[|schedule| - 1];
    NoLateAdd(front, final) && (Exec(front, final).Some? ==> !LateAdd(Exec(front, final).value, a))
  }

  /** No hook is lost, nor about to be. */
  ghost predicate NoneLost(s: State) {
    forall h :: h in s.hooks ==> !s.hooks[h].Lost? && (s.hooks[h].Woken? ==> s.counter == 0)
  }

  lemma NoneLostStep(s: State, a: Action, final: bool)
    requires Inv(s, final) && Enabled(s, a) && NoneLost(s) && !LateAdd(s, a)
    ensures NoneLost(Next(s, a, final))
  {
    var t := Next(s, a, final);
    forall h | h in t.hooks ensures !t.hooks[h].Lost? && (t.hooks[h].Woken? ==> t.counter == 0) {
      if h in s.hooks { assert HookInv(s, s.hooks[h], final); }
      if a.Work? { NotDoneAtZero(s, a.w, final); }
    }
  }

  lemma NotDoneAtZero(s: State, w: nat, final: bool)
    requires Inv(s, final) && w in s.workers
    ensures s.workers[w].Finishing? ==> s.counter > 0
  {
    assert WorkerInv(s, w, s.workers[w], final);
    assert s.workers[w].Finishing? ==> w in Active(s);
  }

  /** If no function passes Add once the trigger is closed, no hook is ever lost. */
  lemma {:induction false} NoneLostWithoutLateAdd(schedule: seq<Action>, final: bool)
    requires Exec(schedule, final).Some? && NoLateAdd(schedule, final)
    ensures NoneLost(Exec(schedule, final).value)
    decreases |schedule|
  {
    if schedule != [] {
      var front := schedule[..|schedule| - 1];
      NoneLostWithoutLateAdd(front, final);
      EveryRun(front, final);
      NoneLostStep(Exec(front, final).value, schedule[|schedule| - 1], final);
    }
  }

  /** Once every function is over and there was one, a hook is over, can go on or is lost; and it
      is not lost if no function passed Add after the trigger was closed. */
  lemma HooksComeThrough(schedule: seq<Action>, h: nat, final: bool)
    requires Exec(schedule, final).Some? && h in Exec(schedule, final).value.hooks
    requires var s := Exec(schedule, final).value; s.workers != map[] && forall w :: w in s.workers ==> s.workers[w].Ended?
    ensures var s := Exec(schedule, final).value;
      && (s.hooks[h].HookEnded? || Enabled(s, Hook(h)) || s.hooks[h].Lost?)
      && (NoLateAdd(schedule, final) ==> !s.hooks[h].Lost?)
  {
    EveryRun(schedule, final);
    var s := Exec(schedule, final).value;
    var w :| w in s.workers;
    assert WorkerInv(s, w, s.workers[w], final) && HookInv(s, s.hooks[h], final);
    assert Active(s) == {};
    if NoLateAdd(schedule, final) { NoneLostWithoutLateAdd(schedule, final); }
  }

  // ----- Which functions may run beside a hook -----

  function Continue(s: State, later: seq<Action>, final: bool): Option<State> {
    if later == [] then Some(s)
    else
      match Continue(s, later[..|later| - 1], final)
      case None => None
      case Some(t) =>
        var a := later[|later| - 1];
        if Enabled(t, a) then Some(Next(t, a, final)) else None
  }

  ghost predicate RunTogether(s: State, h: nat, w: nat) {
    h in s.hooks && s.hooks[h].HookRunning? && w in s.workers && s.workers[w].Running?
  }

  /** From here on hook h and function w may run at the same time. */
  ghost predicate CanOverlap(s: State, h: nat, w: nat, final: bool) {
    exists later :: Continue(s, later, final).Some? && RunTogether(Continue(s, later, final).value, h, w)
  }

  predicate IsPast(s: State, w: nat) {
    w in s.workers && Past(s.workers[w])
  }

  lemma {:induction false} PastForGood(s: State, later: seq<Action>, w: nat, final: bool)
    requires IsPast(s, w) && Continue(s, later, final).Some?
    ensures IsPast(Continue(s, later, final).value, w)
    decreases |later|
  {
    if later != [] {
      PastForGood(s, later[..|later| - 1], w, final);
    }
  }

  lemma ContinueOne(s: State, a: Action, final: bool)
    requires Enabled(s, a)
    ensures Continue(s, [a], final) == Some(Next(s, a, final))
  {
    assert [a][..0] == [];
    assert Continue(s, [], final) == Some(s);
  }

  lemma ContinueTwo(s: State, a: Action, b: Action, final: bool)
    requires Enabled(s, a) && Enabled(Next(s, a, final), b)
    ensures Continue(s, [a, b], final) == Some(Next(Next(s, a, final), b, final))
  {
    ContinueOne(s, a, final);
    assert [a, b][..1] == [a];
  }

  /** A function that is not past and not on its way to Done can still be brought to run. */
  lemma CanStillRun(t: State, h: nat, w: nat, final: bool)
    requires h in t.hooks && t.hooks[h].HookRunning?
    requires w in t.workers ==> t.workers[w].Running? || (t.workers[w].Adding? && final)
    ensures CanOverlap(t, h, w, final)
  {
    if w !in t.workers && final {
      ContinueTwo(t, Go(w), Work(w), final);
    } else if w !in t.workers {
      ContinueOne(t, Go(w), final);
    } else if t.workers[w].Adding? {
      ContinueOne(t, Work(w), final);
    } else {
      assert Continue(t, [], final) == Some(t);
    }
  }

  /** At the moment a hook is let through, the functions that may yet run beside it are exactly
      those that are not past: for a final stop, those that have not passed Add; for a quick stop,
      also those that are running. */
  lemma OverlapIff(schedule: seq<Action>, h: nat, w: nat, final: bool)
    requires Exec(schedule, final).Some? && LetsThrough(Exec(schedule, final).value, h, final)
    ensures var s := Exec(schedule, final).value;
      && (CanOverlap(HookStep(s, h, final), h, w, final) <==> !IsPast(s, w))
      && (final ==> (!IsPast(s, w) <==> w in s.workers ==> s.workers[w].Adding?))
  {
    EveryRun(schedule, final);
    var s := Exec(schedule, final).value;
    var t := HookStep(s, h, final);
    assert HookInv(s, s.hooks[h], final);
    if IsPast(s, w) {
      forall later | Continue(t, later, final).Some? ensures !RunTogether(Continue(t, later, final).value, h, w) {
        PastForGood(t, later, w, final);
      }
    } else {
      if final { CounterZeroMeansPast(s, final); }
      assert w in s.workers ==> WorkerInv(s, w, s.workers[w], final);
      CanStillRun(t, h, w, final);
    }
    if final { CounterZeroMeansPast(s, final); }
  }

  // ----- Which hooks can still be lost -----

  ghost predicate NoNewFunctions(later: seq<Action>) {
    forall a :: a in later ==> !a.Go?
  }

  /** With the functions started so far hook h can still be lost. */
  ghost predicate CanBeLost(s: State, h: nat, final: bool) {
    exists later ::
      && NoNewFunctions(later)
      && Continue(s, later, final).Some?
      && h in Continue(s, later, final).value.hooks && Continue(s, later, final).value.hooks[h].Lost?
  }

  ghost predicate SomeAdding(s: State) {
    exists w :: w in s.workers && s.workers[w].Adding?
  }

  lemma {:induction false} ContinueAfter(s: State, a: Action, later: seq<Action>, final: bool)
    requires Enabled(s, a)
    ensures Continue(s, [a] + later, final) == Continue(Next(s, a, final), later, final)
    decreases |later|
  {
    if later == [] {
      assert [a] + later == [a];
      ContinueOne(s, a, final);
    } else {
      var front := later[..|later| - 1];
      assert ([a] + later)[..|later|] == [a] + front;
      ContinueAfter(s, a, front, final);
    }
  }

  lemma LostLater(s: State, a: Action, h: nat, final: bool)
    requires Enabled(s, a) && !a.Go? && CanBeLost(Next(s, a, final), h, final)
    ensures CanBeLost(s, h, final)
  {
    var later :| NoNewFunctions(later) && Continue(Next(s, a, final), later, final).Some? &&
                 h in Continue(Next(s, a, final), later, final).value.hooks &&
                 Continue(Next(s, a, final), later, final).value.hooks[h].Lost?;
    ContinueAfter(s, a, later, final);
    assert NoNewFunctions([a] + later);
  }

  lemma LostAtOnce(s: State, h: nat, final: bool)
    requires h in s.hooks && s.hooks[h].Woken? && s.counter > 0
    ensures CanBeLost(s, h, final)
  {
    ContinueOne(s, Hook(h), final);
    assert NoNewFunctions([Hook(h)]);
  }

  lemma LostAfterAdd(s: State, h: nat, w: nat, final: bool)
    requires h in s.hooks && s.hooks[h].Woken? && s.counter >= 0 && w in s.workers && s.workers[w].Adding?
    ensures CanBeLost(s, h, final)
  {
    LostAtOnce(Next(s, Work(w), final), h, final);
    LostLater(s, Work(w), h, final);
  }

  /** A parked hook can be lost while some function is about to pass Add: the others end first. */
  lemma {:induction false} ParkedCanBeLost(s: State, h: nat, w: nat)
    requires Inv(s, true) && h in s.hooks && s.hooks[h].Parked? && w in s.workers && s.workers[w].Adding?
    ensures CanBeLost(s, h, true)
    decreases |Active(s)|
  {
    assert HookInv(s, s.hooks[h], true);
    var v :| v in Active(s);
    if s.workers[v].Running? {
      WorkKeepsInv(s, v, true);
      DoneThenLost(Next(s, Work(v), true), h, w, v);
      LostLater(s, Work(v), h, true);
    } else {
      DoneThenLost(s, h, w, v);
    }
  }

  lemma DoneThenLost(s: State, h: nat, w: nat, v: nat)
    requires Inv(s, true) && h in s.hooks && s.hooks[h].Parked? && w in s.workers && s.workers[w].Adding?
    requires v in s.workers && s.workers[v].Finishing?
    ensures CanBeLost(s, h, true)
    decreases |Active(s)|, 0
  {
    var t := Next(s, Work(v), true);
    WorkKeepsInv(s, v, true);
    ActiveAfter(s, v, t.workers[v], t);
    if t.counter == 0 {
      LostAfterAdd(t, h, w, true);
    } else {
      ParkedCanBeLost(t, h, w);
    }
    LostLater(s, Work(v), h, true);
  }

  /** How a waiting hook stands when nothing can make it lost. */
  ghost predicate OutOfDanger(s: State, h: nat) {
    && !SomeAdding(s) && h in s.hooks
    && (s.hooks[h].Parked? || (s.hooks[h].Woken? && s.counter == 0) || s.hooks[h].HookRunning? || s.hooks[h].HookEnded?)
  }

  lemma OutOfDangerStep(s: State, a: Action, h: nat, final: bool)
    requires Inv(s, final) && Enabled(s, a) && !a.Go? && OutOfDanger(s, h)
    ensures OutOfDanger(Next(s, a, final), h)
  {
    var t := Next(s, a, final);
    assert HookInv(s, s.hooks[h], final);
    if a.Work? { NotDoneAtZero(s, a.w, final); }
    assert forall w :: w in t.workers ==> w in s.workers && (t.workers[w].Adding? ==> s.workers[w].Adding?);
  }

  lemma {:induction false} NeverLost(s: State, later: seq<Action>, h: nat, final: bool)
    requires Inv(s, final) && OutOfDanger(s, h) && NoNewFunctions(later) && Continue(s, later, final).Some?
    ensures Inv(Continue(s, later, final).value, final) && OutOfDanger(Continue(s, later, final).value, h)
    decreases |later|
  {
    if later != [] {
      var front := later[..|later| - 1];
      assert forall a :: a in front ==> a in later;
      NeverLost(s, front, h, final);
      var t, a := Continue(s, front, final).value, later[|later| - 1];
      assert a in later;
      OutOfDangerStep(t, a, h, final);
      StepKeepsInv(t, a, final);
    }
  }

  /** With the functions started so far, a hook that waits in Wait can be lost if and only if one of
      them is about to pass Add, or the hook is woken and one has passed it since. */
  lemma LostIff(schedule: seq<Action>, h: nat)
    requires Exec(schedule, true).Some? && h in Exec(schedule, true).value.hooks
    requires Exec(schedule, true).value.hooks[h].Parked? || Exec(schedule, true).value.hooks[h].Woken?
    ensures var s := Exec(schedule, true).value;
      CanBeLost(s, h, true) <==> SomeAdding(s) || (s.hooks[h].Woken? && s.counter > 0)
  {
    EveryRun(schedule, true);
    var s := Exec(schedule, true).value;
    assert HookInv(s, s.hooks[h], true);
    if s.hooks[h].Woken? && s.counter > 0 {
      LostAtOnce(s, h, true);
    } else if SomeAdding(s) {
      var w :| w in s.workers && s.workers[w].Adding?;
      if s.hooks[h].Woken? { LostAfterAdd(s, h, w, true); } else { ParkedCanBeLost(s, h, w); }
    } else {
      forall later | NoNewFunctions(later) && Continue(s, later, true).Some?
        ensures h in Continue(s, later, true).value.hooks && !Continue(s, later, true).value.hooks[h].Lost?
      {
        NeverLost(s, later, h, true);
      }
    }
  }

  // ----- Runs -----

  lemma ExecNext(schedule: seq<Action>, s: State, a: Action, final: bool) returns (longer: seq<Action>, t: State)
    requires Exec(schedule, final) == Some(s) && Enabled(s, a)
    ensures longer == schedule + [a] && t == Next(s, a, final) && Exec(longer, final) == Some(t)
  {
    longer, t := schedule + [a], Next(s, a, final);
    assert longer[..|schedule|] == schedule;
  }

  lemma OneFunctionEnded() returns (h: seq<Action>, s: State)
    ensures Exec(h, true) == Some(s)
    ensures s == State(0, 0, false, Nobody, map[0 := OnceCheck], map[])
  {
    h, s := ExecNext([], INIT, Go(0), true);
    assert s.workers == map[0 := Adding];
    h, s := ExecNext(h, s, Work(0), true);
    assert s.workers == map[0 := Running];
    h, s := ExecNext(h, s, Work(0), true);
    assert s.workers == map[0 := Finishing];
    h, s := ExecNext(h, s, Work(0), true);
    assert s.workers == map[0 := OnceCheck];
  }

  lemma TriggerClosed() returns (h: seq<Action>, s: State)
    ensures Exec(h, true) == Some(s)
    ensures s == State(0, 1, false, By(0), map[0 := OnceMarking], map[])
  {
    h, s := OneFunctionEnded();
    h, s := ExecNext(h, s, Work(0), true);
    h, s := ExecNext(h, s, Work(0), true);
    h, s := ExecNext(h, s, Work(0), true);
  }

  /** The overlap happens even for the two halves of one GoAndStop: here hook 1 and worker 1 run
      together, because worker 0 ended first. */
  lemma HookMayOverlapItsFunction()
    ensures exists schedule, s: State :: Exec(schedule, true) == Some(s) && 1 in s.hooks && 1 in s.workers &&
              s.hooks[1].HookRunning? && s.workers[1].Running?
  {
    var h, s := TriggerClosed();
    h, s := ExecNext(h, s, GoWaitStop(1), true);
    h, s := ExecNext(h, s, Go(1), true);
    h, s := ExecNext(h, s, Hook(1), true);
    h, s := ExecNext(h, s, Hook(1), true);
    h, s := ExecNext(h, s, Work(1), true);
  }

  /** Hook 1 is parked behind worker 1, whose Done wakes it. */
  lemma HookWoken() returns (h: seq<Action>, s: State)
    ensures Exec(h, true) == Some(s)
    ensures s == State(0, 1, false, By(0), map[0 := OnceMarking, 1 := OnceCheck], map[1 := Woken])
  {
    h, s := HookParked();
    h, s := ExecNext(h, s, Work(1), true);
    assert s.workers == map[0 := OnceMarking, 1 := Finishing];
    h, s := ExecNext(h, s, Work(1), true);
    assert s.workers == map[0 := OnceMarking, 1 := OnceCheck];
    assert s.hooks == map[1 := Woken];
  }

  lemma HookParked() returns (h: seq<Action>, s: State)
    ensures Exec(h, true) == Some(s)
    ensures s == State(1, 1, false, By(0), map[0 := OnceMarking, 1 := Running], map[1 := Parked])
  {
    h, s := TriggerClosed();
    h, s := ExecNext(h, s, Go(1), true);
    h, s := ExecNext(h, s, Work(1), true);
    assert s.workers == map[0 := OnceMarking, 1 := Running];
    h, s := ExecNext(h, s, GoWaitStop(1), true);
    h, s := ExecNext(h, s, Hook(1), true);
    h, s := ExecNext(h, s, Hook(1), true);
    assert s.hooks == map[1 := Parked];
  }

  /** Before hook 1 looks again, worker 2 passes Add. */
  lemma HookLost() returns (h: seq<Action>, s: State)
    ensures Exec(h, true) == Some(s)
    ensures s == State(1, 1, false, By(0), map[0 := OnceMarking, 1 := OnceCheck, 2 := Running], map[1 := Lost])
  {
    h, s := HookWoken();
    h, s := ExecNext(h, s, Go(2), true);
    h, s := ExecNext(h, s, Work(2), true);
    assert s.workers == map[0 := OnceMarking, 1 := OnceCheck, 2 := Running];
    h, s := ExecNext(h, s, Hook(1), true);
    assert s.hooks == map[1 := Lost];
  }

  lemma TwoEnded() returns (h: seq<Action>, s: State)
    ensures Exec(h, true) == Some(s)
    ensures s == State(1, 1, true, Nobody, map[0 := Ended, 1 := Ended, 2 := Running], map[1 := Lost])
  {
    h, s := HookLost();
    h, s := ExecNext(h, s, Work(0), true);
    h, s := ExecNext(h, s, Work(0), true);
    assert s.workers == map[0 := Ended, 1 := OnceCheck, 2 := Running];
    h, s := ExecNext(h, s, Work(1), true);
    assert s.workers == map[0 := Ended, 1 := Ended, 2 := Running];
  }

  /** So a stop function may never run although all functions have ended. */
  lemma HookMayBeLost()
    ensures exists schedule, s: State :: Exec(schedule, true) == Some(s) && s.workers.Keys == {0, 1, 2} &&
              (forall w :: w in s.workers ==> s.workers[w].Ended?) && 1 in s.hooks && s.hooks[1].Lost?
  {
    var h, s := TwoEnded();
    h, s := ExecNext(h, s, Work(2), true);
    assert s.workers == map[0 := Ended, 1 := Ended, 2 := Finishing];
    h, s := ExecNext(h, s, Work(2), true);
    assert s.workers == map[0 := Ended, 1 := Ended, 2 := OnceCheck] && s.hooks == map[1 := Lost];
    h, s := ExecNext(h, s, Work(2), true);
    assert s.workers.Keys == {0, 1, 2};
  }
}

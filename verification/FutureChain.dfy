/** Chains of Then: future k + 1 is Then(future k, stages[k].fn), and anyone may complete or cancel
    any of them besides.  Each Complete is one Settle here, which Futures.RunIsSettles and
    Futures.OneEffectEach justify. */
module FutureChain {
  import opened Common
  import opened Futures

  /** One Then: its function, which panics where it gives None, and the zero value of its result
      type.  The values of the several types of a chain stand side by side in V. */
  datatype Stage<!V, !E> = Stage(fn: V -> Option<Outcome<V, E>>, zero: V)

  /** The goroutine of one Then.  A panic of fn ends it with its future left open. */
  datatype Link<V, E> = Waiting | Computing(input: V) | Offering(offer: Outcome<V, E>) | Finished | Died

  datatype Chain<V, E> = Chain(futures: seq<Option<Outcome<V, E>>>, links: seq<Link<V, E>>)

  datatype Event<V, E> =
    | CompleteOutside(j: nat, o: Outcome<V, E>)   // someone else completes or cancels future j
    | Proceed(k: nat)                             // the goroutine behind future k + 1 takes a step

  ghost predicate Shaped<V(!new), E(!new)>(c: Chain<V, E>, stages: seq<Stage<V, E>>) {
    |c.futures| == |stages| + 1 && |c.links| == |stages|
  }

  function Start<V(!new), E(!new)>(stages: seq<Stage<V, E>>): Chain<V, E> {
    Chain(seq(|stages| + 1, _ => None), seq(|stages|, _ => Waiting))
  }

  predicate CanProceed<V, E>(c: Chain<V, E>, k: nat) {
    k < |c.links| && !c.links[k].Finished? && !c.links[k].Died? &&
    (c.links[k].Waiting? ==> k < |c.futures| && c.futures[k].Some?)
  }

  predicate Possible<V, E>(c: Chain<V, E>, e: Event<V, E>) {
    match e
    case CompleteOutside(j, _) => j < |c.futures|
    case Proceed(k) => CanProceed(c, k)
  }

  function Advance<V(!new), E(!new)>(c: Chain<V, E>, e: Event<V, E>, stages: seq<Stage<V, E>>): Chain<V, E>
    requires Shaped(c, stages) && Possible(c, e)
  {
    match e
    case CompleteOutside(j, o) => c.(futures := c.futures[j := Settle(c.futures[j], o)])
    case Proceed(k) =>
      match c.links[k]
      case Waiting =>
        var o := c.futures[k].value;
        c.(links := c.links[k := if o.err.Some? then Offering(Outcome(stages[k].zero, o.err)) else Computing(o.value)])
      case Computing(input) => c.(links := c.links[k := Computed(stages[k].fn(input))])
      case Offering(offer) =>
        c.(futures := c.futures[k + 1 := Settle(c.futures[k + 1], offer)], links := c.links[k := Finished])
  }

  function Computed<V, E>(r: Option<Outcome<V, E>>): Link<V, E> {
    if r.Some? then Offering(r.value) else Died
  }

  /** `c` results from the events, in order. */
  ghost predicate Reaches<V(!new), E(!new)>(events: seq<Event<V, E>>, c: Chain<V, E>, stages: seq<Stage<V, E>>)
    decreases |events|, 0
  {
    if events == [] then c == Start(stages) else ReachesBy(events[..|events| - 1], events[|events| - 1], c, stages)
  }

  ghost predicate ReachesBy<V(!new), E(!new)>(
      front: seq<Event<V, E>>, e: Event<V, E>, c: Chain<V, E>, stages: seq<Stage<V, E>>)
    decreases |front|, 1
  {
    exists b :: Reaches(front, b, stages) && Shaped(b, stages) && Possible(b, e) && c == Advance(b, e, stages)
  }

  // ----- The meaning of a chain -----

  /** One Then: an error passes by fn with the zero value; None if fn panics. */
  function ThenOutcome<V, E>(o: Outcome<V, E>, stage: Stage<V, E>): Option<Outcome<V, E>> {
    if o.err.Some? then Some(Outcome(stage.zero, o.err)) else stage.fn(o.value)
  }

  /** None once a function that is reached panics. */
  function ChainOutcome<V, E>(o: Outcome<V, E>, stages: seq<Stage<V, E>>): Option<Outcome<V, E>> {
    if stages == [] then Some(o)
    else
      var before := ChainOutcome(o, stages[..|stages| - 1]);
      if before.None? then None else ThenOutcome(before.value, stages[|stages| - 1])
  }

  /** Someone other than the chain completed future j with o. */
  predicate Outside<V(==), E(==)>(events: seq<Event<V, E>>, j: nat, o: Outcome<V, E>) {
    CompleteOutside(j, o) in events
  }

  ghost predicate OfferedOutside<V(!new), E(!new)>(events: seq<Event<V, E>>, j: nat) {
    exists o :: Outside(events, j, o)
  }

  ghost predicate Inv<V(!new), E(!new)>(c: Chain<V, E>, events: seq<Event<V, E>>, stages: seq<Stage<V, E>>) {
    && Shaped(c, stages)
    && forall k :: 0 <= k < |stages| ==> LinkInv(c, k, stages[k], events)
  }

  /** How future k + 1 and its goroutine stand to future k. */
  ghost predicate LinkInv<V(!new), E(!new)>(c: Chain<V, E>, k: nat, stage: Stage<V, E>, events: seq<Event<V, E>>)
    requires k < |c.links| && k + 1 < |c.futures|
  {
    && FutureInv(c.futures[k], c.futures[k + 1], k, stage, events)
    && (c.links[k].Waiting? || c.futures[k].Some?)
    && match c.links[k]
       case Waiting => true
       case Computing(input) => c.futures[k] == Some(Outcome(input, None))
       case Offering(offer) => ThenOutcome(c.futures[k].value, stage) == Some(offer)
       case Finished => c.futures[k + 1].Some? && ThenOutcome(c.futures[k].value, stage).Some?
       case Died => ThenOutcome(c.futures[k].value, stage) == None
  }

  /** A completed future holds what Then says of the one before it, or an outside offer; and it is
      complete if it was offered anything from outside. */
  ghost predicate FutureInv<V(!new), E(!new)>(
      before: Option<Outcome<V, E>>, after: Option<Outcome<V, E>>, k: nat, stage: Stage<V, E>, events: seq<Event<V, E>>)
  {
    && (after.Some? && !Outside(events, k + 1, after.value) ==> before.Some? && ThenOutcome(before.value, stage) == after)
    && (OfferedOutside(events, k + 1) ==> after.Some?)
  }

  lemma FutureStep<V(!new), E(!new)>(
      c: Chain<V, E>, e: Event<V, E>, d: Chain<V, E>, k: nat, events: seq<Event<V, E>>, stages: seq<Stage<V, E>>)
    requires Inv(c, events, stages) && Possible(c, e) && d == Advance(c, e, stages) && k < |stages|
    ensures FutureInv(d.futures[k], d.futures[k + 1], k, stages[k], events + [e])
  {
    assert LinkInv(c, k, stages[k], events);
    forall j: nat, o: Outcome<V, E> ensures Outside(events + [e], j, o) <==> Outside(events, j, o) || e == CompleteOutside(j, o) { }
  }

  lemma LinkStep<V(!new), E(!new)>(
      c: Chain<V, E>, e: Event<V, E>, d: Chain<V, E>, k: nat, events: seq<Event<V, E>>, stages: seq<Stage<V, E>>)
    requires Inv(c, events, stages) && Possible(c, e) && d == Advance(c, e, stages) && k < |stages|
    ensures LinkInv(d, k, stages[k], events + [e])
  {
    FutureStep(c, e, d, k, events, stages);
    assert LinkInv(c, k, stages[k], events);
    if e.Proceed? { assert LinkInv(c, e.k, stages[e.k], events); }
  }

  lemma StepKeepsInv<V(!new), E(!new)>(c: Chain<V, E>, e: Event<V, E>, events: seq<Event<V, E>>, stages: seq<Stage<V, E>>)
    requires Inv(c, events, stages) && Possible(c, e)
    ensures Inv(Advance(c, e, stages), events + [e], stages)
  {
    forall k | 0 <= k < |stages| ensures LinkInv(Advance(c, e, stages), k, stages[k], events + [e]) {
      LinkStep(c, e, Advance(c, e, stages), k, events, stages);
    }
  }

  lemma {:induction false} EveryRun<V(!new), E(!new)>(events: seq<Event<V, E>>, c: Chain<V, E>, stages: seq<Stage<V, E>>)
    requires Reaches(events, c, stages)
    ensures Inv(c, events, stages)
  {
    if events != [] {
      var front, e := events[..|events| - 1], events[|events| - 1];
      var b :| Reaches(front, b, stages) && Shaped(b, stages) && Possible(b, e) && c == Advance(b, e, stages);
      EveryRun(front, b, stages);
      StepKeepsInv(b, e, front, stages);
      assert events == front + [e];
    }
  }

  /** In every interleaving a completed future holds what Then says of the future before it, or what
      someone else completed it with. */
  lemma ThenOrOutside<V(!new), E(!new)>(events: seq<Event<V, E>>, c: Chain<V, E>, k: nat, stages: seq<Stage<V, E>>)
    requires Reaches(events, c, stages) && k < |stages|
    requires k + 1 < |c.futures| && c.futures[k + 1].Some?
    ensures Outside(events, k + 1, c.futures[k + 1].value) ||
            (c.futures[k].Some? && ThenOutcome(c.futures[k].value, stages[k]) == c.futures[k + 1])
  {
    EveryRun(events, c, stages);
    assert LinkInv(c, k, stages[k], events);
  }

  ghost predicate AtRest<V(!new), E(!new)>(c: Chain<V, E>) {
    forall j: nat :: !CanProceed(c, j)
  }

  /** When no goroutine can go on, a future is complete if and only if someone else completed it or
      the one before it is complete and does not make fn panic. */
  lemma CompleteIff<V(!new), E(!new)>(events: seq<Event<V, E>>, c: Chain<V, E>, k: nat, stages: seq<Stage<V, E>>)
    requires Reaches(events, c, stages) && k < |stages| && AtRest(c)
    ensures |c.futures| == |stages| + 1
    ensures c.futures[k + 1].Some? <==>
      OfferedOutside(events, k + 1) || (c.futures[k].Some? && ThenOutcome(c.futures[k].value, stages[k]).Some?)
  {
    EveryRun(events, c, stages);
    assert LinkInv(c, k, stages[k], events);
    assert !CanProceed(c, k);
    if c.futures[k + 1].Some? && !Outside(events, k + 1, c.futures[k + 1].value) {
      assert ThenOutcome(c.futures[k].value, stages[k]) == c.futures[k + 1];
    }
  }

  // ----- Chains that nobody else touches -----

  ghost predicate Undisturbed<V(!new), E(!new)>(events: seq<Event<V, E>>) {
    forall j: nat, o :: j > 0 ==> !Outside(events, j, o)
  }

  /** In every interleaving, a completed future of an undisturbed chain holds the chain's meaning
      at the outcome of the first. */
  lemma {:induction false} ChainMeaning<V(!new), E(!new)>(
      events: seq<Event<V, E>>, c: Chain<V, E>, k: nat, stages: seq<Stage<V, E>>)
    requires Reaches(events, c, stages) && Undisturbed(events) && k <= |stages|
    requires k < |c.futures| && c.futures[k].Some?
    ensures c.futures[0].Some? && c.futures[k] == ChainOutcome(c.futures[0].value, stages[..k])
    decreases k
  {
    if k > 0 {
      ThenOrOutside(events, c, k - 1, stages);
      ChainMeaning(events, c, k - 1, stages);
      assert stages[..k][..k - 1] == stages[..k - 1];
    }
  }

  /** When no goroutine can go on and the first future is complete, a later one is complete if and
      only if no function that is reached before it panics. */
  lemma {:induction false} ChainCompletesIff<V(!new), E(!new)>(
      events: seq<Event<V, E>>, c: Chain<V, E>, k: nat, stages: seq<Stage<V, E>>)
    requires Reaches(events, c, stages) && Undisturbed(events) && AtRest(c) && k <= |stages|
    requires |c.futures| > 0 && c.futures[0].Some?
    ensures |c.futures| == |stages| + 1
    ensures c.futures[k].Some? <==> ChainOutcome(c.futures[0].value, stages[..k]).Some?
    decreases k
  {
    EveryRun(events, c, stages);
    if k > 0 {
      ChainCompletesIff(events, c, k - 1, stages);
      CompleteIff(events, c, k - 1, stages);
      assert stages[..k][..k - 1] == stages[..k - 1];
      if c.futures[k - 1].Some? { ChainMeaning(events, c, k - 1, stages); }
    }
  }

  // ----- Unit laws -----

  /** A Then of a success is fn of its value. */
  lemma LeftUnit<V, E>(v: V, st: Stage<V, E>)
    ensures ChainOutcome(Outcome(v, None), [st]) == st.fn(v)
  {
    assert [st][..0] == [];
  }

  /** A Then whose fn gives its argument back changes no success. */
  lemma RightUnit<V, E>(o: Outcome<V, E>, front: seq<Stage<V, E>>, zero: V)
    requires ChainOutcome(o, front).Some? && ChainOutcome(o, front).value.err.None?
    ensures ChainOutcome(o, front + [Stage(v => Some(Outcome(v, None)), zero)]) == ChainOutcome(o, front)
  {
    var st: Stage<V, E> := Stage(v => Some(Outcome(v, None)), zero);
    var p := ChainOutcome(o, front).value;
    ChainSplits(o, front, [st]);
    LeftUnit(p.value, st);
    assert p == Outcome(p.value, None);
  }

  /** When no goroutine can go on and nobody else completed future k + 1, it holds what its fn gives
      for the value of future k, and stays open if fn panics. */
  lemma ThenHoldsFn<V(!new), E(!new)>(
      events: seq<Event<V, E>>, c: Chain<V, E>, k: nat, v: V, stages: seq<Stage<V, E>>)
    requires Reaches(events, c, stages) && AtRest(c) && k < |stages| && !OfferedOutside(events, k + 1)
    requires k + 1 < |c.futures| && c.futures[k] == Some(Outcome(v, None))
    ensures c.futures[k + 1] == stages[k].fn(v)
  {
    CompleteIff(events, c, k, stages);
    if c.futures[k + 1].Some? { ThenOrOutside(events, c, k, stages); }
  }

  /** ... and when future k holds an error, that error with the zero value. */
  lemma ThenHoldsError<V(!new), E(!new)>(
      events: seq<Event<V, E>>, c: Chain<V, E>, k: nat, v: V, e: E, stages: seq<Stage<V, E>>)
    requires Reaches(events, c, stages) && AtRest(c) && k < |stages| && !OfferedOutside(events, k + 1)
    requires k + 1 < |c.futures| && c.futures[k] == Some(Outcome(v, Some(e)))
    ensures c.futures[k + 1] == Some(Outcome(stages[k].zero, Some(e)))
  {
    CompleteIff(events, c, k, stages);
    ThenOrOutside(events, c, k, stages);
  }

  // ----- Associativity -----

  /** The one Then that does the work of several, stopping at the first error or panic. */
  function Fuse<V, E>(stages: seq<Stage<V, E>>): Stage<V, E>
    requires stages != []
  {
    Stage(v => ChainOutcome(Outcome(v, None), stages), stages[|stages| - 1].zero)
  }

  /** A chain that goes on from a chain. */
  function ThenChain<V, E>(o: Option<Outcome<V, E>>, stages: seq<Stage<V, E>>): Option<Outcome<V, E>> {
    if o.None? then None else ChainOutcome(o.value, stages)
  }

  lemma {:induction false} ChainSplits<V, E>(o: Outcome<V, E>, front: seq<Stage<V, E>>, back: seq<Stage<V, E>>)
    ensures ChainOutcome(o, front + back) == ThenChain(ChainOutcome(o, front), back)
    decreases |back|
  {
    if back == [] {
      assert front + back == front;
    } else {
      ChainSplits(o, front, back[..|back| - 1]);
      assert (front + back)[..|front + back| - 1] == front + back[..|back| - 1];
    }
  }

  lemma {:induction false} ErrorsPass<V, E>(o: Outcome<V, E>, stages: seq<Stage<V, E>>)
    requires o.err.Some? && stages != []
    ensures ChainOutcome(o, stages) == Some(Outcome(stages[|stages| - 1].zero, o.err))
    decreases |stages|
  {
    if |stages| > 1 {
      ErrorsPass(o, stages[..|stages| - 1]);
    } else {
      assert stages[..0] == [];
    }
  }

  lemma FusedIsThem<V, E>(p: Outcome<V, E>, middle: seq<Stage<V, E>>)
    requires middle != []
    ensures ChainOutcome(p, [Fuse(middle)]) == ChainOutcome(p, middle)
  {
    assert [Fuse(middle)][..0] == [];
    assert ChainOutcome(p, [Fuse(middle)]) == ThenOutcome(p, Fuse(middle));
    if p.err.Some? {
      ErrorsPass(p, middle);
    } else {
      assert p == Outcome(p.value, None);
    }
  }

  /** Then is associative: any stretch of a chain may be fused into one Then. */
  lemma ThenAssociative<V, E>(
      o: Outcome<V, E>, front: seq<Stage<V, E>>, middle: seq<Stage<V, E>>, back: seq<Stage<V, E>>)
    requires middle != []
    ensures ChainOutcome(o, front + middle + back) == ChainOutcome(o, front + [Fuse(middle)] + back)
  {
    var p := ChainOutcome(o, front);
    if p.Some? { FusedIsThem(p.value, middle); }
    ChainSplits(o, front, middle);
    ChainSplits(o, front, [Fuse(middle)]);
    ChainSplits(o, front + middle, back);
    ChainSplits(o, front + [Fuse(middle)], back);
  }
}

/** Consistent hash rings: what a lookup on a sorted sequence of virtual spots returns, and how
    it changes when a node joins or leaves.  The hash function is arbitrary. */
module RingSpec {
  import opened Common

  /** One virtual spot of a node.  (The key stored beside it in the source is never read.) */
  datatype Spot = Spot(node: string, hash: nat)

  ghost predicate Sorted(s: seq<Spot>) {
    forall i, j :: 0 <= i < j < |s| ==> s[i].hash <= s[j].hash
  }

  /** The index sort.Search returns: the first spot at or after the target, or |s|. */
  function FirstAtLeast(s: seq<Spot>, target: nat): (i: nat)
    ensures i <= |s|
    ensures forall k :: 0 <= k < i ==> s[k].hash < target
    ensures i < |s| ==> s[i].hash >= target
  {
    if s == [] || s[0].hash >= target then 0 else 1 + FirstAtLeast(s[1..], target)
  }

  /** The index whose spot answers a lookup, wrapping past the end to the first spot. */
  function OwnerIndex(s: seq<Spot>, target: nat): (i: nat)
    requires s != []
    ensures i < |s|
  {
    var i := FirstAtLeast(s, target);
    if i == |s| then 0 else i
  }

  function Owner(s: seq<Spot>, target: nat): Option<string> {
    if s == [] then None else Some(s[OwnerIndex(s, target)].node)
  }

  // ----- The reference meaning: the nearest spot clockwise on a circle of hashes -----

  ghost predicate OnCircle(s: seq<Spot>, limit: nat) {
    forall p :: p in s ==> p.hash < limit
  }

  /** How far clockwise `hash` lies from `target` on a circle of `limit` positions. */
  function Clockwise(target: nat, hash: nat, limit: nat): int {
    if hash >= target then hash - target else hash + limit - target
  }

  ghost predicate Nearest(s: seq<Spot>, target: nat, p: Spot, limit: nat) {
    p in s && forall q :: q in s ==> Clockwise(target, p.hash, limit) <= Clockwise(target, q.hash, limit)
  }

  lemma OwnerIsNearest(s: seq<Spot>, target: nat, limit: nat)
    requires s != [] && Sorted(s) && OnCircle(s, limit) && target < limit
    ensures Nearest(s, target, s[OwnerIndex(s, target)], limit)
    ensures forall j :: 0 <= j < OwnerIndex(s, target) ==> !Nearest(s, target, s[j], limit)
  {
    var i := FirstAtLeast(s, target);
    forall q | q in s
      ensures Clockwise(target, s[OwnerIndex(s, target)].hash, limit) <= Clockwise(target, q.hash, limit)
    {
      var k :| 0 <= k < |s| && s[k] == q;
      if k < i {
        assert q.hash < limit && q.hash < target;
      }
    }
    forall j | 0 <= j < OwnerIndex(s, target)
      ensures !Nearest(s, target, s[j], limit)
    {
      assert i < |s| && s[i] in s && s[i].hash < limit;
    }
  }

  /** Two spots that are both nearest share their hash. */
  lemma NearestHash(s: seq<Spot>, target: nat, p: Spot, q: Spot, limit: nat)
    requires OnCircle(s, limit) && target < limit
    requires Nearest(s, target, p, limit) && Nearest(s, target, q, limit)
    ensures p.hash == q.hash
  {
  }

  // ----- Hash ties between different nodes -----

  ghost predicate NoCrossTies(s: seq<Spot>) {
    forall p, q :: p in s && q in s && p.hash == q.hash ==> p.node == q.node
  }

  ghost predicate SameSpots(s: seq<Spot>, t: seq<Spot>) {
    forall p :: p in s <==> p in t
  }

  /** With no tie between nodes the owner depends on the set of spots alone. */
  lemma OwnerDependsOnSpots(s: seq<Spot>, t: seq<Spot>, target: nat, limit: nat)
    requires Sorted(s) && Sorted(t) && SameSpots(s, t) && NoCrossTies(s)
    requires OnCircle(s, limit) && target < limit
    ensures Owner(s, target) == Owner(t, target)
  {
    assert s != [] ==> s[0] in s;
    assert t != [] ==> t[0] in t;
    if s != [] && t != [] {
      assert OnCircle(t, limit);
      OwnerIsNearest(s, target, limit);
      OwnerIsNearest(t, target, limit);
      var p, q := s[OwnerIndex(s, target)], t[OwnerIndex(t, target)];
      assert q in s;
      NearestHash(s, target, p, q, limit);
    }
  }

  // ----- Sorting: any sorted permutation, since sort.Sort is not stable -----

  ghost predicate IsSortOf(t: seq<Spot>, s: seq<Spot>) {
    Sorted(t) && multiset(t) == multiset(s)
  }

  lemma SortKeepsSpots(t: seq<Spot>, s: seq<Spot>)
    requires multiset(t) == multiset(s)
    ensures SameSpots(t, s)
  {
    forall p ensures p in t <==> p in s {
      assert p in t <==> p in multiset(t);
      assert p in s <==> p in multiset(s);
    }
  }

  /** Inserts x before every spot whose hash is not smaller. */
  function Insert(x: Spot, s: seq<Spot>): (r: seq<Spot>)
    ensures |r| == |s| + 1
  {
    var i := FirstAtLeast(s, x.hash);
    s[..i] + [x] + s[i..]
  }

  lemma InsertKeepsSpots(x: Spot, s: seq<Spot>)
    ensures multiset(Insert(x, s)) == multiset(s) + multiset{x}
  {
    var i := FirstAtLeast(s, x.hash);
    assert s == s[..i] + s[i..];
  }

  lemma InsertSorted(x: Spot, s: seq<Spot>)
    requires Sorted(s)
    ensures Sorted(Insert(x, s))
  {
    var i, r := FirstAtLeast(s, x.hash), Insert(x, s);
    assert forall k :: 0 <= k < |r| ==> r[k] == if k < i then s[k] else if k == i then x else s[k - 1];
  }

  function InsertionSort(s: seq<Spot>): (r: seq<Spot>)
    ensures IsSortOf(r, s)
    ensures |r| == |s|
  {
    if s == [] then [] else
      assert s == [s[0]] + s[1..];
      InsertKeepsSpots(s[0], InsertionSort(s[1..]));
      InsertSorted(s[0], InsertionSort(s[1..]));
      Insert(s[0], InsertionSort(s[1..]))
  }

  /** A spot inserted last into a sorted ring answers for its own hash. */
  lemma InsertedAnswers(x: Spot, s: seq<Spot>)
    requires Sorted(s)
    ensures Owner(Insert(x, s), x.hash) == Some(x.node)
  {
    var i := FirstAtLeast(s, x.hash);
    var r := Insert(x, s);
    assert r[i] == x;
    assert forall k :: 0 <= k < i ==> r[k] == s[k];
    var j := FirstAtLeast(r, x.hash);
    assert j == i;
  }

  // ----- Adding a node -----

  /** Whether adding n can move a key between two other nodes: some spot of another node shares
      its hash with, and stands behind, a spot of a different node. */
  ghost predicate AddSafe(s: seq<Spot>, n: string) {
    forall j :: 0 <= j < |s| && s[j].node != n ==>
      FirstAtLeast(s, s[j].hash) < |s| && s[FirstAtLeast(s, s[j].hash)].node == s[j].node
  }

  ghost predicate AllOf(added: seq<Spot>, n: string) {
    forall p :: p in added ==> p.node == n
  }

  ghost predicate MovesOnlyTo(s: seq<Spot>, t: seq<Spot>, n: string, limit: nat) {
    forall target: nat :: target < limit ==>
      Owner(t, target) == Owner(s, target) || Owner(t, target) == Some(n)
  }

  lemma AddMovesMinimally(s: seq<Spot>, added: seq<Spot>, t: seq<Spot>, n: string, limit: nat)
    requires Sorted(s) && AllOf(added, n) && IsSortOf(t, s + added) && OnCircle(s + added, limit)
    requires AddSafe(s, n)
    ensures MovesOnlyTo(s, t, n, limit)
  {
    SortKeepsSpots(t, s + added);
    forall target: nat | target < limit
      ensures Owner(t, target) == Owner(s, target) || Owner(t, target) == Some(n)
    {
      assert s != [] ==> s[0] in s + added;
      if t != [] {
        OwnerIsNearest(t, target, limit);
        var p := t[OwnerIndex(t, target)];
        if p.node != n {
          assert p in s + added;
          assert p in s;
          assert OnCircle(s, limit);
          forall q | q in s ensures q in t { assert q in s + added; }
          assert Nearest(s, target, p, limit);
          FirstOfTieGroup(s, target, p, n, limit);
        }
      }
    }
  }

  /** In a safe ring a nearest spot of another node names the owner. */
  lemma FirstOfTieGroup(s: seq<Spot>, target: nat, p: Spot, n: string, limit: nat)
    requires Sorted(s) && OnCircle(s, limit) && target < limit && AddSafe(s, n)
    requires Nearest(s, target, p, limit) && p.node != n
    ensures Owner(s, target) == Some(p.node)
  {
    OwnerIsNearest(s, target, limit);
    var i := OwnerIndex(s, target);
    NearestHash(s, target, p, s[i], limit);
    var j :| 0 <= j < |s| && s[j] == p;
    var f := FirstAtLeast(s, p.hash);
    assert f <= i;
    assert s[f].hash == p.hash;
    assert Nearest(s, target, s[f], limit);
    assert f == i;
  }

  /** The sort that puts one chosen spot ahead of every spot it ties with. */
  function SortFavouring(s: seq<Spot>, j: nat, added: seq<Spot>): (t: seq<Spot>)
    requires j < |s|
    ensures IsSortOf(t, s + added)
    ensures Owner(t, s[j].hash) == Some(s[j].node)
  {
    var rest := s[..j] + s[j + 1..];
    assert s == s[..j] + [s[j]] + s[j + 1..];
    InsertedAnswers(s[j], InsertionSort(rest + added));
    InsertKeepsSpots(s[j], InsertionSort(rest + added));
    InsertSorted(s[j], InsertionSort(rest + added));
    Insert(s[j], InsertionSort(rest + added))
  }

  /** Adding n moves keys only to n, whichever sorted order results, exactly when the old ring
      has no spot of another node behind a tied spot of a different node. */
  lemma AddMinimalIff(s: seq<Spot>, added: seq<Spot>, n: string, limit: nat)
    requires Sorted(s) && AllOf(added, n) && OnCircle(s + added, limit)
    ensures (forall t :: IsSortOf(t, s + added) ==> MovesOnlyTo(s, t, n, limit)) <==> AddSafe(s, n)
  {
    if AddSafe(s, n) {
      forall t | IsSortOf(t, s + added) ensures MovesOnlyTo(s, t, n, limit) {
        AddMovesMinimally(s, added, t, n, limit);
      }
    } else {
      UnsafeAddMoves(s, added, n, limit);
    }
  }

  lemma UnsafeAddMoves(s: seq<Spot>, added: seq<Spot>, n: string, limit: nat)
    requires Sorted(s) && OnCircle(s + added, limit) && !AddSafe(s, n)
    ensures exists t :: IsSortOf(t, s + added) && !MovesOnlyTo(s, t, n, limit)
  {
    var j :| 0 <= j < |s| && s[j].node != n &&
      !(FirstAtLeast(s, s[j].hash) < |s| && s[FirstAtLeast(s, s[j].hash)].node == s[j].node);
    var p := s[j];
    assert p in s + added;
    assert FirstAtLeast(s, p.hash) < |s|;
    var t := SortFavouring(s, j, added);
    assert Owner(t, p.hash) == Some(p.node) != Owner(s, p.hash);
    assert !MovesOnlyTo(s, t, n, limit);
  }

  /** For a node not yet in the ring, safety is the absence of ties between nodes. */
  lemma AddSafeIffNoCrossTies(s: seq<Spot>, n: string)
    requires Sorted(s) && forall p :: p in s ==> p.node != n
    ensures AddSafe(s, n) <==> NoCrossTies(s)
  {
    if NoCrossTies(s) {
      forall j | 0 <= j < |s| && s[j].node != n
        ensures FirstAtLeast(s, s[j].hash) < |s| && s[FirstAtLeast(s, s[j].hash)].node == s[j].node
      {
        var f := FirstAtLeast(s, s[j].hash);
        assert f <= j;
        assert s[f] in s && s[j] in s && s[f].hash == s[j].hash;
      }
    }
    if AddSafe(s, n) {
      forall p, q | p in s && q in s && p.hash == q.hash ensures p.node == q.node {
        var i :| 0 <= i < |s| && s[i] == p;
        var j :| 0 <= j < |s| && s[j] == q;
      }
    }
  }

  // ----- Removing a node -----

  function Without(s: seq<Spot>, n: string): seq<Spot> {
    if s == [] then []
    else if s[|s| - 1].node == n then Without(s[..|s| - 1], n)
    else Without(s[..|s| - 1], n) + [s[|s| - 1]]
  }

  /** Exactly the spots of the other nodes stay. */
  lemma {:induction false} WithoutSpots(s: seq<Spot>, n: string)
    ensures forall p :: p in Without(s, n) <==> p in s && p.node != n
    decreases |s|
  {
    if s != [] {
      assert s == s[..|s| - 1] + [s[|s| - 1]];
      WithoutSpots(s[..|s| - 1], n);
    }
  }

  lemma WithoutNext(s: seq<Spot>, n: string, i: nat)
    requires i < |s|
    ensures Without(s[..i + 1], n) == Without(s[..i], n) + if s[i].node == n then [] else [s[i]]
  {
    assert s[..i + 1][..i] == s[..i];
  }

  lemma {:induction false} WithoutSorted(s: seq<Spot>, n: string)
    requires Sorted(s)
    ensures Sorted(Without(s, n))
  {
    if s != [] {
      var last := s[|s| - 1];
      WithoutSorted(s[..|s| - 1], n);
      WithoutSpots(s[..|s| - 1], n);
      var r := Without(s[..|s| - 1], n);
      forall p | p in r ensures p.hash <= last.hash {
        assert p in s[..|s| - 1];
      }
      assert forall k :: 0 <= k < |r| ==> r[k] in r;
    }
  }

  /** Position of s[i] among the spots that stay. */
  lemma {:induction false} WithoutAt(s: seq<Spot>, n: string, i: nat)
    requires i < |s| && s[i].node != n
    ensures |Without(s[..i], n)| < |Without(s, n)|
    ensures Without(s, n)[|Without(s[..i], n)|] == s[i]
    ensures Without(s, n)[..|Without(s[..i], n)|] == Without(s[..i], n)
  {
    if i == |s| - 1 {
    } else {
      var front := s[..|s| - 1];
      assert front[..i] == s[..i];
      WithoutAt(front, n, i);
    }
  }

  /** Removal moves only the keys of the removed node, whatever hashes are tied. */
  lemma RemoveMovesMinimally(s: seq<Spot>, n: string, target: nat)
    requires Sorted(s)
    ensures Owner(Without(s, n), target) != Some(n)
    ensures Owner(s, target) != Some(n) ==> Owner(Without(s, n), target) == Owner(s, target)
  {
    var r := Without(s, n);
    WithoutSpots(s, n);
    if r != [] {
      assert r[OwnerIndex(r, target)] in r;
    }
    if s != [] && Owner(s, target) != Some(n) {
      var i := OwnerIndex(s, target);
      WithoutAt(s, n, i);
      WithoutSorted(s, n);
      var k := |Without(s[..i], n)|;
      var f := FirstAtLeast(s, target);
      if f < |s| {
        WithoutSpots(s[..i], n);
        forall m | 0 <= m < k ensures r[m].hash < target {
          assert r[..k][m] in Without(s[..i], n);
        }
        assert FirstAtLeast(r, target) == k;
      } else {
        assert s[..0] == [];
        assert k == 0;
        forall m | 0 <= m < |r| ensures r[m].hash < target {
          assert r[m] in s;
        }
        assert FirstAtLeast(r, target) == |r|;
      }
    }
  }

  // ----- Whole runs of adds and removes -----

  datatype Op = Add(name: string) | Remove(name: string)

  function VirtualKey(name: string, i: nat): string {
    name + ":" + Decimal(i)
  }

  function VirtualSpots(name: string, spots: nat, hash: string -> nat): (s: seq<Spot>)
    ensures |s| == spots && AllOf(s, name)
    ensures forall i :: 0 <= i < spots ==> s[i] == Spot(name, hash(VirtualKey(name, i)))
  {
    seq(spots, i requires 0 <= i < spots => Spot(name, hash(VirtualKey(name, i))))
  }

  ghost predicate Step(s: seq<Spot>, op: Op, t: seq<Spot>, spots: nat, hash: string -> nat) {
    match op
    case Add(name) => IsSortOf(t, s + VirtualSpots(name, spots, hash))
    case Remove(name) => t == Without(s, name)
  }

  /** `ring` can result from performing `ops` in order on an empty ring. */
  ghost predicate Reaches(ops: seq<Op>, ring: seq<Spot>, spots: nat, hash: string -> nat)
    decreases |ops|, 0
  {
    if ops == [] then ring == []
    else ReachesBy(ops[..|ops| - 1], ops[|ops| - 1], ring, spots, hash)
  }

  ghost predicate ReachesBy(front: seq<Op>, op: Op, ring: seq<Spot>, spots: nat, hash: string -> nat)
    decreases |front|, 1
  {
    exists s :: Reaches(front, s, spots, hash) && Step(s, op, ring, spots, hash)
  }

  /** The names left by a run: those whose last operation added them. */
  function Present(ops: seq<Op>): set<string> {
    if ops == [] then {} else PresentAfter(Present(ops[..|ops| - 1]), ops[|ops| - 1])
  }

  function PresentAfter(names: set<string>, op: Op): set<string> {
    match op
    case Add(name) => names + {name}
    case Remove(name) => names - {name}
  }

  ghost predicate HoldsExactly(ring: seq<Spot>, names: set<string>, spots: nat, hash: string -> nat) {
    forall p :: p in ring <==> p.node in names && p in VirtualSpots(p.node, spots, hash)
  }

  lemma {:induction false} RunKeepsRing(ops: seq<Op>, ring: seq<Spot>, spots: nat, hash: string -> nat)
    requires Reaches(ops, ring, spots, hash)
    ensures Sorted(ring)
    ensures HoldsExactly(ring, Present(ops), spots, hash)
  {
    if ops != [] {
      var front, op := ops[..|ops| - 1], ops[|ops| - 1];
      var s :| Reaches(front, s, spots, hash) && Step(s, op, ring, spots, hash);
      RunKeepsRing(front, s, spots, hash);
      match op
      case Add(name) =>
        SortKeepsSpots(ring, s + VirtualSpots(name, spots, hash));
      case Remove(name) =>
        WithoutSorted(s, name);
        WithoutSpots(s, name);
    }
  }

  /** Two histories that leave the same names present route every key alike, provided the spots
      present tie only within a node. */
  lemma HistoryIndependence(
      ops1: seq<Op>, ring1: seq<Spot>, ops2: seq<Op>, ring2: seq<Spot>,
      spots: nat, hash: string -> nat, limit: nat, target: nat)
    requires Reaches(ops1, ring1, spots, hash) && Reaches(ops2, ring2, spots, hash)
    requires Present(ops1) == Present(ops2)
    requires (forall x :: hash(x) < limit) && target < limit
    requires NoCrossTies(ring1)
    ensures Owner(ring1, target) == Owner(ring2, target)
  {
    RunKeepsRing(ops1, ring1, spots, hash);
    RunKeepsRing(ops2, ring2, spots, hash);
    OwnerDependsOnSpots(ring1, ring2, target, limit);
  }

  lemma ReachesExtended(ops: seq<Op>, s: seq<Spot>, op: Op, t: seq<Spot>, spots: nat, hash: string -> nat)
    requires Reaches(ops, s, spots, hash) && Step(s, op, t, spots, hash)
    ensures Reaches(ops + [op], t, spots, hash)
    ensures Present(ops + [op]) == PresentAfter(Present(ops), op)
  {
    assert (ops + [op])[..|ops|] == ops;
    assert ReachesBy(ops, op, t, spots, hash);
  }

  ghost predicate AgreesWithEveryHistory(ops: seq<Op>, ring: seq<Spot>, spots: nat, hash: string -> nat, limit: nat) {
    forall ops2, ring2, target: nat ::
      Reaches(ops2, ring2, spots, hash) && Present(ops2) == Present(ops) && target < limit ==>
      Owner(ring2, target) == Owner(ring, target)
  }

  /** ... and that proviso is exact: a ring agrees with every other history of the same names
      if and only if no two of its nodes tie. */
  lemma HistoryIndependenceIff(ops: seq<Op>, ring: seq<Spot>, spots: nat, hash: string -> nat, limit: nat)
    requires Reaches(ops, ring, spots, hash) && forall x :: hash(x) < limit
    ensures AgreesWithEveryHistory(ops, ring, spots, hash, limit) <==> NoCrossTies(ring)
  {
    if NoCrossTies(ring) {
      forall ops2, ring2, target: nat
        | Reaches(ops2, ring2, spots, hash) && Present(ops2) == Present(ops) && target < limit
        ensures Owner(ring2, target) == Owner(ring, target)
      {
        HistoryIndependence(ops, ring, ops2, ring2, spots, hash, limit, target);
      }
    } else {
      TiedRingDisagrees(ops, ring, spots, hash, limit);
    }
  }

  /** Adding a tied node once more re-sorts the ring, and either tied node may come first. */
  lemma TiedRingDisagrees(ops: seq<Op>, ring: seq<Spot>, spots: nat, hash: string -> nat, limit: nat)
    requires Reaches(ops, ring, spots, hash) && forall x :: hash(x) < limit
    requires !NoCrossTies(ring)
    ensures !AgreesWithEveryHistory(ops, ring, spots, hash, limit)
  {
    RunKeepsRing(ops, ring, spots, hash);
    var p, q :| p in ring && q in ring && p.hash == q.hash && p.node != q.node;
    var i :| 0 <= i < |ring| && ring[i] == p;
    var j :| 0 <= j < |ring| && ring[j] == q;
    assert p.hash < limit by { assert p in VirtualSpots(p.node, spots, hash); }
    var k := if Owner(ring, p.hash) == Some(p.node) then j else i;
    var t := ReaddFavouring(ops, ring, p.node, k, spots, hash);
    DisagreesWith(ops, ring, ops + [Add(p.node)], t, spots, hash, limit, p.hash);
  }

  lemma ReaddFavouring(ops: seq<Op>, ring: seq<Spot>, n: string, k: nat, spots: nat, hash: string -> nat)
    returns (t: seq<Spot>)
    requires Reaches(ops, ring, spots, hash) && n in Present(ops) && k < |ring|
    ensures Reaches(ops + [Add(n)], t, spots, hash) && Present(ops + [Add(n)]) == Present(ops)
    ensures Owner(t, ring[k].hash) == Some(ring[k].node)
  {
    t := AddFavouring(ring, n, k, spots, hash);
    ReachesExtended(ops, ring, Add(n), t, spots, hash);
    assert Present(ops) + {n} == Present(ops);
  }

  lemma AddFavouring(ring: seq<Spot>, n: string, k: nat, spots: nat, hash: string -> nat) returns (t: seq<Spot>)
    requires k < |ring|
    ensures Step(ring, Add(n), t, spots, hash) && Owner(t, ring[k].hash) == Some(ring[k].node)
  {
    t := SortFavouring(ring, k, VirtualSpots(n, spots, hash));
  }

  lemma DisagreesWith(
      ops: seq<Op>, ring: seq<Spot>, ops2: seq<Op>, ring2: seq<Spot>,
      spots: nat, hash: string -> nat, limit: nat, target: nat)
    requires Reaches(ops2, ring2, spots, hash) && Present(ops2) == Present(ops) && target < limit
    requires Owner(ring2, target) != Owner(ring, target)
    ensures !AgreesWithEveryHistory(ops, ring, spots, hash, limit)
  {
  }

  /** Removing a node that was just added restores every owner. */
  lemma RemoveUndoesAdd(s: seq<Spot>, n: string, t: seq<Spot>, spots: nat, hash: string -> nat, limit: nat, target: nat)
    requires Sorted(s) && OnCircle(s, limit) && target < limit && NoCrossTies(s)
    requires forall p :: p in s ==> p.node != n
    requires Step(s, Add(n), t, spots, hash)
    ensures Owner(Without(t, n), target) == Owner(s, target)
  {
    SortKeepsSpots(t, s + VirtualSpots(n, spots, hash));
    WithoutSorted(t, n);
    WithoutSpots(t, n);
    OwnerDependsOnSpots(s, Without(t, n), target, limit);
  }

  /** Whichever sorted orders result, adding n and removing it again changes no owner. */
  ghost predicate AddCanBeUndone(s: seq<Spot>, n: string, spots: nat, hash: string -> nat, limit: nat) {
    forall t, target: nat :: Step(s, Add(n), t, spots, hash) && target < limit ==>
      Owner(Without(t, n), target) == Owner(s, target)
  }

  /** For an absent node that is so exactly when no two nodes tie. */
  lemma RemoveUndoesAddIff(s: seq<Spot>, n: string, spots: nat, hash: string -> nat, limit: nat)
    requires Sorted(s) && OnCircle(s, limit) && forall p :: p in s ==> p.node != n
    ensures AddCanBeUndone(s, n, spots, hash, limit) <==> NoCrossTies(s)
  {
    if NoCrossTies(s) {
      forall t, target: nat | Step(s, Add(n), t, spots, hash) && target < limit
        ensures Owner(Without(t, n), target) == Owner(s, target)
      {
        RemoveUndoesAdd(s, n, t, spots, hash, limit, target);
      }
    } else {
      var p, q :| p in s && q in s && p.hash == q.hash && p.node != q.node;
      var i :| 0 <= i < |s| && s[i] == p;
      var j :| 0 <= j < |s| && s[j] == q;
      var k := if Owner(s, p.hash) == Some(p.node) then j else i;
      assert s[k] in s;
      var t := SortFavouring(s, k, VirtualSpots(n, spots, hash));
      RemoveMovesMinimally(t, n, p.hash);
      assert Step(s, Add(n), t, spots, hash) && Owner(Without(t, n), p.hash) != Owner(s, p.hash);
    }
  }

  // ----- Keys of virtual spots, and hash functions that keep them apart -----

  /** The key of a spot is the name, a colon and the decimal number of the spot. */
  lemma KeyText(name: string, i: nat)
    ensures var key := VirtualKey(name, i);
      && name + ":" <= key && AllDigits(key[|name| + 1..]) && NumberOf(key[|name| + 1..]) == i
      && (|key| > |name| + 2 ==> key[|name| + 1] != '0')
  {
    var key := VirtualKey(name, i);
    assert key[|name| + 1..] == Decimal(i);
    DecimalReadsBack(i);
  }

  lemma ColonBeforeDigits(name: string, i: nat, k: nat)
    requires k < |VirtualKey(name, i)|
    ensures var key := VirtualKey(name, i); var colon := |key| - 1 - |Decimal(i)|;
      && colon == |name| && key[colon] == ':' && (k > colon ==> key[k] != ':')
  {
    var key := VirtualKey(name, i);
    if k > |name| { assert key[k] == Decimal(i)[k - |name| - 1] && Decimal(i)[k - |name| - 1] in Decimal(i); }
  }

  /** Different spots have different keys, of one node or of two. */
  lemma KeysDiffer(a: string, i: nat, b: string, j: nat)
    requires VirtualKey(a, i) == VirtualKey(b, j)
    ensures a == b && i == j
  {
    var key := VirtualKey(a, i);
    ColonBeforeDigits(a, i, |b|);
    ColonBeforeDigits(b, j, |a|);
    assert |a| == |b|;
    assert key[..|a|] == a && key[..|b|] == b;
    assert key[|a| + 1..] == Decimal(i) && key[|b| + 1..] == Decimal(j);
    DecimalReadsBack(i);
    DecimalReadsBack(j);
  }

  predicate IsKeyOf(key: string, name: string, i: nat, names: set<string>, spots: nat) {
    name in names && i < spots && key == VirtualKey(name, i)
  }

  /** No two keys of the nodes have the same hash. */
  ghost predicate Separates(hash: string -> nat, names: set<string>, spots: nat) {
    forall x, y, a, i: nat, b, j: nat ::
      (IsKeyOf(x, a, i, names, spots) && IsKeyOf(y, b, j, names, spots) && hash(x) == hash(y)) ==> x == y
  }

  /** The spots of a node are those at the hashes of its keys, one for each number below `spots`. */
  lemma SpotsAreKeys(name: string, spots: nat, hash: string -> nat, p: Spot)
    ensures p in VirtualSpots(name, spots, hash) <==>
      p.node == name && exists key, i: nat :: IsKeyOf(key, name, i, {name}, spots) && p.hash == hash(key)
  {
    if p in VirtualSpots(name, spots, hash) {
      var i := SpotHasKey(p, spots, hash);
      assert IsKeyOf(VirtualKey(name, i), name, i, {name}, spots);
    }
    if p.node == name && exists key, i: nat :: IsKeyOf(key, name, i, {name}, spots) && p.hash == hash(key) {
      var key, i: nat :| IsKeyOf(key, name, i, {name}, spots) && p.hash == hash(key);
      assert VirtualSpots(name, spots, hash)[i] == p;
    }
  }

  lemma SpotHasKey(p: Spot, spots: nat, hash: string -> nat) returns (i: nat)
    requires p in VirtualSpots(p.node, spots, hash)
    ensures i < spots && p.hash == hash(VirtualKey(p.node, i))
  {
    i :| 0 <= i < spots && VirtualSpots(p.node, spots, hash)[i] == p;
  }

  /** If the hash function keeps the keys of the nodes present apart, no two nodes of a ring tie. */
  lemma SeparatedNodesDoNotTie(ops: seq<Op>, ring: seq<Spot>, spots: nat, hash: string -> nat)
    requires Reaches(ops, ring, spots, hash) && Separates(hash, Present(ops), spots)
    ensures NoCrossTies(ring)
  {
    RunKeepsRing(ops, ring, spots, hash);
    forall p, q | p in ring && q in ring && p.hash == q.hash ensures p.node == q.node {
      var i := SpotHasKey(p, spots, hash);
      var j := SpotHasKey(q, spots, hash);
      assert IsKeyOf(VirtualKey(p.node, i), p.node, i, Present(ops), spots);
      assert IsKeyOf(VirtualKey(q.node, j), q.node, j, Present(ops), spots);
      KeysDiffer(p.node, i, q.node, j);
    }
  }

  /** So with such a hash function a ring agrees with every other history of its names, and adding a
      node, present or not, moves keys to that node only. */
  lemma SeparatedRingsAreConsistent(
      ops: seq<Op>, ring: seq<Spot>, n: string, t: seq<Spot>, spots: nat, hash: string -> nat, limit: nat)
    requires Reaches(ops, ring, spots, hash) && Separates(hash, Present(ops), spots) && forall x :: hash(x) < limit
    requires Step(ring, Add(n), t, spots, hash)
    ensures AgreesWithEveryHistory(ops, ring, spots, hash, limit) && MovesOnlyTo(ring, t, n, limit)
  {
    SeparatedNodesDoNotTie(ops, ring, spots, hash);
    HistoryIndependenceIff(ops, ring, spots, hash, limit);
    RunKeepsRing(ops, ring, spots, hash);
    AddedIsOnCircle(ring, Present(ops), n, spots, hash, limit);
    TieFreeIsSafe(ring, n);
    AddMovesMinimally(ring, VirtualSpots(n, spots, hash), t, n, limit);
  }

  lemma AddedIsOnCircle(ring: seq<Spot>, names: set<string>, n: string, spots: nat, hash: string -> nat, limit: nat)
    requires HoldsExactly(ring, names, spots, hash) && forall x :: hash(x) < limit
    ensures OnCircle(ring + VirtualSpots(n, spots, hash), limit)
  {
    forall p | p in ring + VirtualSpots(n, spots, hash) ensures p.hash < limit {
      assert p in VirtualSpots(p.node, spots, hash);
      var i := SpotHasKey(p, spots, hash);
    }
  }

  lemma TieFreeIsSafe(s: seq<Spot>, n: string)
    requires Sorted(s) && NoCrossTies(s)
    ensures AddSafe(s, n)
  {
    forall j | 0 <= j < |s| && s[j].node != n
      ensures FirstAtLeast(s, s[j].hash) < |s| && s[FirstAtLeast(s, s[j].hash)].node == s[j].node
    {
      var f := FirstAtLeast(s, s[j].hash);
      assert f <= j;
      assert s[f] in s && s[j] in s && s[f].hash == s[j].hash;
    }
  }
}

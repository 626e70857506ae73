/** The ring object: a slice of virtual spots over a backing array, changed in place. */
module HashRing {
  import opened Common
  import opened RingSpec

  const DEFAULT_VIRTUAL_SPOTS: nat := 160

  /** The slice `nodes` is buf[..len]; spare capacity follows it. */
  class Ring {
    const spots: nat
    const hash: string -> nat
    var buf: array<Spot>
    var len: nat

    ghost predicate Valid()
      reads this, buf
    {
      len <= buf.Length && Sorted(Contents())
    }

    ghost function Contents(): seq<Spot>
      reads this, buf
    {
      if len <= buf.Length then buf[..len] else []
    }

    constructor (virtualSpots: int, hash: string -> nat)
      ensures Valid() && fresh(buf) && Contents() == [] && this.hash == hash
      ensures spots == if virtualSpots <= 0 then 160 else virtualSpots
    {
      this.spots := if virtualSpots <= 0 then DEFAULT_VIRTUAL_SPOTS else virtualSpots;
      this.hash := hash;
      this.buf := new Spot[0];
      this.len := 0;
    }

    /** Adds the virtual spots of a node and sorts.  The write to the hasher that fails, if any,
        is the one numbered `failingWrite`; the ring is then left as it was. */
    method AddNode(name: string, failingWrite: nat) returns (ok: bool)
      requires Valid()
      modifies this, buf
      ensures Valid() && (buf == old(buf) || fresh(buf))
      ensures ok <==> failingWrite >= spots
      ensures ok ==> Step(old(Contents()), Add(name), Contents(), spots, hash)
      ensures !ok ==> Contents() == old(Contents())
    {
      var nodes: seq<Spot> := [];
      for i := 0 to spots
        invariant i <= failingWrite
        invariant nodes == VirtualSpots(name, i, hash)
      {
        if i == failingWrite {
          return false;
        }
        nodes := nodes + [Spot(name, hash(VirtualKey(name, i)))];
      }
      Append(nodes);
      Sort(buf, len);
      return true;
    }

    /** Go's append: in place while the capacity lasts, otherwise into a new array. */
    method Append(nodes: seq<Spot>)
      requires len <= buf.Length
      modifies this, buf
      ensures len <= buf.Length && (buf == old(buf) || fresh(buf))
      ensures Contents() == old(Contents()) + nodes
    {
      var total := len + |nodes|;
      if buf.Length < total {
        var a := new Spot[total](_ => Spot("", 0));
        forall i | 0 <= i < len {
          a[i] := buf[i];
        }
        buf := a;
        assert buf[..len] == old(Contents());
      }
      ghost var kept := buf[..len];
      forall i | 0 <= i < |nodes| {
        buf[len + i] := nodes[i];
      }
      assert buf[..total] == kept + nodes;
      len := total;
    }

    method RemoveNode(name: string)
      requires Valid()
      modifies this, buf
      ensures Valid() && buf == old(buf)
      ensures Step(old(Contents()), Remove(name), Contents(), spots, hash)
    {
      WithoutSorted(Contents(), name);
      len := Compact(buf, len, name);
    }

    /** sort.Search over the hashes, then the wrap-around. */
    method Lookup(target: nat) returns (name: string, ok: bool)
      requires Valid()
      ensures ok <==> Contents() != []
      ensures Owner(Contents(), target) == if ok then Some(name) else None
      ensures !ok ==> name == ""
    {
      if len == 0 {
        return "", false;
      }
      var i, j := 0, len;
      while i < j
        invariant i <= j <= len
        invariant i <= FirstAtLeast(Contents(), target) <= j
      {
        var h := (i + j) / 2;
        assert buf[h] == Contents()[h];
        if buf[h].hash < target {
          i := h + 1;
        } else {
          j := h;
        }
      }
      var idx := if i == len then 0 else i;
      return buf[idx].node, true;
    }

    method GetNodeForInt64(key: int) returns (name: string, ok: bool)
      requires Valid() && IsInt64(key)
      ensures ok <==> Contents() != []
      ensures Owner(Contents(), key % TWO64) == if ok then Some(name) else None
    {
      Int64TargetIsTwosComplement(key);
      name, ok := Lookup(Int64Target(key));
    }

    method GetNodeForString(key: string) returns (name: string, ok: bool)
      requires Valid()
      ensures ok <==> Contents() != []
      ensures Owner(Contents(), hash(key)) == if ok then Some(name) else None
    {
      name, ok := Lookup(hash(key));
    }
  }

  /** Moves the spots that stay to the front of the same array they are read from; the writer
      never overtakes the reader. */
  method Compact(a: array<Spot>, n: nat, name: string) returns (kept: nat)
    requires n <= a.Length
    modifies a
    ensures kept <= n && a[..kept] == Without(old(a[..n]), name)
  {
    ghost var was := a[..n];
    kept := 0;
    for i := 0 to n
      invariant kept <= i
      invariant a[..kept] == Without(was[..i], name)
      invariant forall k :: i <= k < n ==> a[k] == was[k]
    {
      WithoutNext(was, name, i);
      var spot := a[i];
      if spot.node != name {
        ghost var front := a[..kept];
        a[kept] := spot;
        kept := kept + 1;
        assert a[..kept] == front + [spot];
      }
    }
    assert was[..n] == was;
  }

  /** sort.Sort: only "some sorted permutation" is promised to callers. */
  method Sort(a: array<Spot>, n: nat)
    requires n <= a.Length
    modifies a
    ensures IsSortOf(a[..n], old(a[..n]))
  {
    var s := InsertionSort(a[..n]);
    forall i | 0 <= i < n {
      a[i] := s[i];
    }
    assert a[..n] == s;
  }

  // ----- The signed key of an int64 lookup -----

  /** The target hash of a signed key, step by step in uint64 arithmetic. */
  function Int64Target(key: int): int {
    if key >= 0 then key
    else
      var magnitude := NegateInt64(key) % TWO64;
      ((TWO64 - 1 - magnitude) % TWO64 + 1) % TWO64
  }

  lemma Int64TargetIsTwosComplement(key: int)
    requires IsInt64(key)
    ensures Int64Target(key) == key % TWO64
  {
  }

  function KeyFor(target: int): int {
    if target < TWO63 then target else target - TWO64
  }

  /** Every point of the circle is the target of exactly one key, so a statement about all
      targets is a statement about all int64 keys. */
  lemma EveryTargetHasOneKey(target: int, key: int)
    requires 0 <= target < TWO64 && IsInt64(key)
    ensures IsInt64(KeyFor(target))
    ensures Int64Target(key) == target <==> key == KeyFor(target)
  {
  }
}

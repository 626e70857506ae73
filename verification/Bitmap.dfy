/** The bitmap: bytes that stand for a set of indices below `size`. */
module BitmapModel {
  import opened Common

  // ----- Single bytes -----

  /** 1 << k as a byte. */
  function Mask(k: int): bv8
    requires 0 <= k < 8
  {
    (1 as bv8) << k
  }

  predicate TestBit(b: bv8, k: int)
    requires 0 <= k < 8
  {
    b & Mask(k) != 0
  }

  lemma MaskTable()
    ensures Mask(0) == 1 && Mask(1) == 2 && Mask(2) == 4 && Mask(3) == 8
    ensures Mask(4) == 16 && Mask(5) == 32 && Mask(6) == 64 && Mask(7) == 128
  {
  }

  lemma SetBitOnly(b: bv8, j: int, k: int)
    requires 0 <= j < 8 && 0 <= k < 8
    ensures TestBit(b | Mask(k), j) <==> j == k || TestBit(b, j)
  {
    MaskTable();
  }

  lemma ClearBitOnly(b: bv8, j: int, k: int)
    requires 0 <= j < 8 && 0 <= k < 8
    ensures TestBit(b & !Mask(k), j) <==> j != k && TestBit(b, j)
  {
    MaskTable();
  }

  /** The number of bits set, as bits.OnesCount8 gives it. */
  function OnesCount8(b: bv8): nat {
    |BitsOf(b, 8)|
  }

  // ----- Sequences of bytes -----

  predicate BitAt(bytes: seq<bv8>, i: int)
    requires 0 <= i < 8 * |bytes|
  {
    TestBit(bytes[i / 8], i % 8)
  }

  /** The indices below n whose bit is set. */
  function BitsBelow(bytes: seq<bv8>, n: int): set<int>
    requires 0 <= n <= 8 * |bytes|
  {
    set i: int | 0 <= i < n && BitAt(bytes, i)
  }

  function BitsOf(b: bv8, n: int): set<int>
    requires 0 <= n <= 8
  {
    set k: int | 0 <= k < n && TestBit(b, k)
  }

  lemma BitsBelowNext(bytes: seq<bv8>, i: int)
    requires 0 <= i < 8 * |bytes|
    ensures |BitsBelow(bytes, i + 1)| == |BitsBelow(bytes, i)| + if BitAt(bytes, i) then 1 else 0
  {
    assert BitsBelow(bytes, i + 1) == if BitAt(bytes, i) then BitsBelow(bytes, i) + {i} else BitsBelow(bytes, i);
  }

  lemma BitsOfNext(b: bv8, k: int)
    requires 0 <= k < 8
    ensures |BitsOf(b, k + 1)| == |BitsOf(b, k)| + if TestBit(b, k) then 1 else 0
  {
    OneMoreBit(BitsOf(b, k), BitsOf(b, k + 1), k, TestBit(b, k));
  }

  lemma OneMoreBit(before: set<int>, after: set<int>, k: int, bit: bool)
    requires k !in before && forall i :: i in after <==> i in before || (i == k && bit)
    ensures |after| == |before| + if bit then 1 else 0
  {
    var expected := if bit then before + {k} else before;
    assert forall i :: i in after <==> i in expected;
    assert after == expected;
  }

  lemma {:induction false} BitsOfNextByte(bytes: seq<bv8>, m: nat, k: nat)
    requires m < |bytes| && k <= 8
    ensures |BitsBelow(bytes, 8 * m + k)| == |BitsBelow(bytes, 8 * m)| + |BitsOf(bytes[m], k)|
    decreases k
  {
    if k == 0 {
      assert BitsOf(bytes[m], 0) == {};
    } else {
      BitsOfNextByte(bytes, m, k - 1);
      var i := 8 * m + k - 1;
      assert i / 8 == m && i % 8 == k - 1;
      BitsBelowNext(bytes, i);
      BitsOfNext(bytes[m], k - 1);
    }
  }

  /** Writing one byte decides the bits of that byte and no others. */
  lemma OtherBytes(bytes: seq<bv8>, index: int, b: bv8, i: int)
    requires 0 <= index < 8 * |bytes| && 0 <= i < 8 * |bytes|
    ensures BitAt(bytes[index / 8 := b], i) <==> if i / 8 == index / 8 then TestBit(b, i % 8) else BitAt(bytes, i)
  {
  }

  lemma SetByte(bytes: seq<bv8>, index: int, i: int)
    requires 0 <= index < 8 * |bytes| && 0 <= i < 8 * |bytes|
    ensures BitAt(bytes[index / 8 := bytes[index / 8] | Mask(index % 8)], i) <==> i == index || BitAt(bytes, i)
  {
    OtherBytes(bytes, index, bytes[index / 8] | Mask(index % 8), i);
    SetBitOnly(bytes[index / 8], i % 8, index % 8);
  }

  lemma ClearByte(bytes: seq<bv8>, index: int, i: int)
    requires 0 <= index < 8 * |bytes| && 0 <= i < 8 * |bytes|
    ensures BitAt(bytes[index / 8 := bytes[index / 8] & !Mask(index % 8)], i) <==> i != index && BitAt(bytes, i)
  {
    OtherBytes(bytes, index, bytes[index / 8] & !Mask(index % 8), i);
    ClearBitOnly(bytes[index / 8], i % 8, index % 8);
  }

  const MAX_SIZE: int := TWO63 - 8

  function Elements(indexes: seq<int>): set<int> {
    set i | i in indexes
  }

  lemma NextElement(indexes: seq<int>, n: nat)
    requires n < |indexes|
    ensures Elements(indexes[..n + 1]) == Elements(indexes[..n]) + {indexes[n]}
  {
    assert indexes[..n + 1] == indexes[..n] + [indexes[n]];
  }

  /** A panic is reported as `false`, or None for NewBitmap.  Near the top of the int64 range
      size + 7 wraps, and a negative number of bytes cannot be made. */
  method NewBitmap(size: int) returns (b: Option<Bitmap>)
    requires IsInt64(size)
    ensures b.None? <==> size < 0 || size > MAX_SIZE
    ensures b.Some? ==> fresh(b.value) && fresh(b.value.bits) && b.value.Valid() && b.value.size == size && b.value.Contents() == {}
  {
    if size < 0 {
      return None;
    }
    if WrapInt64(size + 7) < 0 {
      return None;
    }
    var m := new Bitmap(size);
    return Some(m);
  }

  class Bitmap {
    const size: int
    const bits: array<bv8>

    /** The bits after the last index, in the last byte, are zero. */
    ghost predicate Valid()
      reads bits
    {
      && 0 <= size
      && bits.Length == (size + 7) / 8
      && forall i: int :: size <= i < 8 * bits.Length ==> !BitAt(bits[..], i)
    }

    ghost function Contents(): set<int>
      requires Valid()
      reads bits
    {
      BitsBelow(bits[..], size)
    }

    constructor (size: int)
      requires 0 <= size
      ensures Valid() && fresh(bits) && this.size == size && Contents() == {}
    {
      this.size := size;
      this.bits := new bv8[(size + 7) / 8](_ => 0);
    }

    predicate InRange(index: int) {
      0 <= index < size
    }

    method Set(index: int) returns (ok: bool)
      requires Valid()
      modifies bits
      ensures Valid() && ok == InRange(index)
      ensures Contents() == if ok then old(Contents()) + {index} else old(Contents())
    {
      if !InRange(index) {
        return false;
      }
      SetValid(index);
      return true;
    }

    /** The write of Set and MSet, once the index has been checked. */
    method SetValid(index: int)
      requires Valid() && InRange(index)
      modifies bits
      ensures Valid() && Contents() == old(Contents()) + {index}
    {
      ghost var was := bits[..];
      bits[index / 8] := bits[index / 8] | Mask(index % 8);
      assert bits[..] == was[index / 8 := was[index / 8] | Mask(index % 8)];
      forall i: int | 0 <= i < 8 * bits.Length ensures BitAt(bits[..], i) <==> i == index || BitAt(was, i) {
        SetByte(was, index, i);
      }
    }

    method MSet(indexes: seq<int>) returns (ok: bool)
      requires Valid()
      modifies bits
      ensures Valid() && ok == (forall i :: i in indexes ==> InRange(i))
      ensures Contents() == if ok then old(Contents()) + Elements(indexes) else old(Contents())
    {
      if |indexes| == 0 {
        return true;
      }
      for n := 0 to |indexes|
        invariant forall i :: i in indexes[..n] ==> InRange(i)
      {
        if !InRange(indexes[n]) {
          return false;
        }
      }
      assert indexes[..|indexes|] == indexes;
      for n := 0 to |indexes|
        invariant Valid()
        invariant Contents() == old(Contents()) + Elements(indexes[..n])
      {
        SetValid(indexes[n]);
        NextElement(indexes, n);
      }
      return true;
    }

    method Clear(index: int) returns (ok: bool)
      requires Valid()
      modifies bits
      ensures Valid() && ok == InRange(index)
      ensures Contents() == if ok then old(Contents()) - {index} else old(Contents())
    {
      if !InRange(index) {
        return false;
      }
      ghost var was := bits[..];
      bits[index / 8] := bits[index / 8] & !Mask(index % 8);
      assert bits[..] == was[index / 8 := was[index / 8] & !Mask(index % 8)];
      forall i: int | 0 <= i < 8 * bits.Length ensures BitAt(bits[..], i) <==> i != index && BitAt(was, i) {
        ClearByte(was, index, i);
      }
      return true;
    }

    /** None when the source panics. */
    method IsSet(index: int) returns (r: Option<bool>)
      requires Valid()
      ensures r == if InRange(index) then Some(index in Contents()) else None
    {
      if !InRange(index) {
        return None;
      }
      r := Some(bits[index / 8] & Mask(index % 8) != 0);
      assert r.value == BitAt(bits[..], index);
    }

    method Count() returns (count: int)
      requires Valid()
      ensures count == |Contents()|
    {
      count := 0;
      for m := 0 to bits.Length
        invariant count == |BitsBelow(bits[..], 8 * m)|
      {
        count := count + OnesCount8(bits[m]);
        BitsOfNextByte(bits[..], m, 8);
        assert bits[..][m] == bits[m];
      }
      assert BitsBelow(bits[..], 8 * bits.Length) == Contents();
    }
  }
}

/** The Bloom filter over int64 elements.  An int64 is held as its 64 bits. */
module BloomModel {
  import opened Common
  import opened BitmapModel

  const SIGN: bv64 := 0x8000_0000_0000_0000

  /** The signed value of 64 bits. */
  function Int64(h: bv64): int {
    if h & SIGN != 0 then (h as int) - 0x1_0000_0000_0000_0000 else h as int
  }

  /** h ^= h >> 33 on a signed h: copies of the sign enter from the left. */
  function Fold(h: bv64): bv64 {
    if h & SIGN != 0 then h ^ ((h >> 33) | 0xffff_ffff_8000_0000) else h ^ (h >> 33)
  }

  /** Folding clears the sign, whatever it was. */
  lemma FoldClearsSign(h: bv64)
    ensures Fold(h) & SIGN == 0
  {
  }

  lemma FoldNonNegative(h: bv64)
    ensures Int64(Fold(h)) >= 0
  {
    FoldClearsSign(h);
  }

  /** What a hash closure does with the product of an element and its seed, up to its last fold.
      Products wrap. */
  function Mix(h: bv64): bv64 {
    Fold(Fold(h) * 0x5136ead0f35b37d) * 0x4cf5ad432745937
  }

  function Hash(data: bv64, seed: bv64): bv64 {
    Fold(Mix(data * seed))
  }

  const PRIMES: seq<bv64> := [
    7540381766041133433,
    4354685564936845354,
    6742423442829656945,
    5864445385546375633,
    6955415921471435831,
    2270897969802886123,
    6620516959819538809,
    4354685564936845354
  ]

  // ----- Hash functions as values -----

  type HashFn = bv64 -> int

  /** The closure made for one prime. */
  function HashWith(seed: bv64): HashFn {
    data => Int64(Hash(data, seed))
  }

  /** k functions; the filter never asks for more than there are primes. */
  function CreateHashFunctions(k: nat): (fns: seq<HashFn>)
    requires k <= |PRIMES|
  {
    seq(k, i requires 0 <= i < k => HashWith(PRIMES[i]))
  }

  ghost predicate AgreeEverywhere(f: HashFn, g: HashFn) {
    forall d :: f(d) == g(d)
  }

  /** The hashes of element 1, one for each of the seven different primes. */
  const HASHES_OF_ONE: seq<int> := [
    8607146501280310351,
    5521395692569670338,
    2933111810711050168,
    340386835485762276,
    8733364813569170613,
    4078342621210210229,
    4434896657862648244
  ]

  lemma FirstHash(seed: bv64)
    requires seed == 7540381766041133433
    ensures Int64(Hash(1, seed)) == 8607146501280310351
  {
  }

  lemma SecondHash(seed: bv64)
    requires seed == 4354685564936845354
    ensures Int64(Hash(1, seed)) == 5521395692569670338
  {
  }

  lemma ThirdHash(seed: bv64)
    requires seed == 6742423442829656945
    ensures Int64(Hash(1, seed)) == 2933111810711050168
  {
  }

  lemma FourthHash(seed: bv64)
    requires seed == 5864445385546375633
    ensures Int64(Hash(1, seed)) == 340386835485762276
  {
  }

  lemma FifthHash(seed: bv64)
    requires seed == 6955415921471435831
    ensures Int64(Hash(1, seed)) == 8733364813569170613
  {
  }

  lemma SixthHash(seed: bv64)
    requires seed == 2270897969802886123
    ensures Int64(Hash(1, seed)) == 4078342621210210229
  {
  }

  lemma SeventhHash(seed: bv64)
    requires seed == 6620516959819538809
    ensures Int64(Hash(1, seed)) == 4434896657862648244
  {
  }

  lemma HashOfOne(i: nat)
    requires i < 7
    ensures Int64(Hash(1, PRIMES[i])) == HASHES_OF_ONE[i]
  {
    var seed := PRIMES[i];
    if i == 0 { FirstHash(seed); }
    else if i == 1 { SecondHash(seed); }
    else if i == 2 { ThirdHash(seed); }
    else if i == 3 { FourthHash(seed); }
    else if i == 4 { FifthHash(seed); }
    else if i == 5 { SixthHash(seed); }
    else { SeventhHash(seed); }
  }

  lemma HashesOfOneDiffer(i: nat, j: nat)
    requires i < j < 7
    ensures HASHES_OF_ONE[i] != HASHES_OF_ONE[j]
  {
  }

  lemma EighthIsSecond()
    ensures AgreeEverywhere(CreateHashFunctions(8)[1], CreateHashFunctions(8)[7])
  {
    assert PRIMES[1] == PRIMES[7];
  }

  lemma SevenDiffer(k: nat, i: nat, j: nat)
    requires i < j < k < 8
    ensures !AgreeEverywhere(CreateHashFunctions(k)[i], CreateHashFunctions(k)[j])
  {
    FunctionAtOne(k, i);
    FunctionAtOne(k, j);
    HashesOfOneDiffer(i, j);
    Distinguished(CreateHashFunctions(k)[i], CreateHashFunctions(k)[j]);
  }

  /** The values of the functions at element 1, as the products and shifts of the source give them. */
  lemma FunctionAtOne(k: nat, i: nat)
    requires i < k <= 8 && i < 7
    ensures CreateHashFunctions(k)[i](1) == HASHES_OF_ONE[i]
  {
    HashOfOne(i);
  }

  lemma Distinguished(f: HashFn, g: HashFn)
    requires f(1) != g(1)
    ensures !AgreeEverywhere(f, g)
  {
  }

  ghost predicate SomeRepeated(k: nat)
    requires k <= |PRIMES|
  {
    exists i, j :: 0 <= i < j < k && AgreeEverywhere(CreateHashFunctions(k)[i], CreateHashFunctions(k)[j])
  }

  /** One prime is listed twice: of up to eight hash functions two are the same if and only if
      there are eight. */
  lemma RepeatedFunctionIff(k: nat)
    requires k <= |PRIMES|
    ensures SomeRepeated(k) <==> k == 8
  {
    if k == 8 {
      EighthIsSecond();
      assert AgreeEverywhere(CreateHashFunctions(k)[1], CreateHashFunctions(k)[7]);
    } else {
      forall i, j | 0 <= i < j < k ensures !AgreeEverywhere(CreateHashFunctions(k)[i], CreateHashFunctions(k)[j]) {
        SevenDiffer(k, i, j);
      }
    }
  }

  ghost predicate NonNegative(fns: seq<HashFn>) {
    forall i, d :: 0 <= i < |fns| ==> fns[i](d) >= 0
  }

  /** Every hash function that can be made gives a non-negative number for every int64. */
  lemma HashesNonNegative(k: nat)
    requires k <= |PRIMES|
    ensures NonNegative(CreateHashFunctions(k))
  {
    forall i, d: bv64 | 0 <= i < k ensures CreateHashFunctions(k)[i](d) >= 0 {
      FoldNonNegative(Mix(d * PRIMES[i]));
    }
  }

  /** Go's %: the remainder takes the sign of the dividend. */
  function Remainder(h: int, size: int): int
    requires size > 0
  {
    if h >= 0 then h % size else -((-h) % size)
  }

  /** A remainder by zero panics, so a filter of no bits works only without hash functions. */
  predicate Usable(fns: seq<HashFn>, size: int) {
    size > 0 || |fns| == 0
  }

  function IndexSeq(data: bv64, fns: seq<HashFn>, size: int): seq<int>
    requires Usable(fns, size)
  {
    seq(|fns|, i requires 0 <= i < |fns| => Remainder(fns[i](data), size))
  }

  function Indexes(data: bv64, fns: seq<HashFn>, size: int): set<int>
    requires Usable(fns, size)
  {
    Elements(IndexSeq(data, fns, size))
  }

  /** It is what a division that truncates toward zero leaves over. */
  lemma RemainderTruncates(h: int, size: int) returns (q: int)
    requires size > 0
    ensures var r := Remainder(h, size);
      h == q * size + r && -size < r < size && (h >= 0 ==> r >= 0) && (h <= 0 ==> r <= 0)
  {
    q := if h >= 0 then h / size else -((-h) / size);
  }

  /** Each hash function gives one index, and there are no others. */
  lemma IndexesAre(data: bv64, fns: seq<HashFn>, size: int, x: int)
    requires Usable(fns, size)
    ensures x in Indexes(data, fns, size) <==> exists i :: 0 <= i < |fns| && x == Remainder(fns[i](data), size)
  {
    forall i | 0 <= i < |fns| && x == Remainder(fns[i](data), size) ensures x in Indexes(data, fns, size) {
      assert IndexSeq(data, fns, size)[i] == x;
    }
  }

  /** The bits of a filter after adding elements one by one. */
  function AddAll(bits: set<int>, data: seq<bv64>, fns: seq<HashFn>, size: int): set<int>
    requires Usable(fns, size)
  {
    if data == [] then bits
    else AddAll(bits, data[..|data| - 1], fns, size) + Indexes(data[|data| - 1], fns, size)
  }

  lemma {:induction false} AddAllContains(bits: set<int>, data: seq<bv64>, d: bv64, fns: seq<HashFn>, size: int)
    requires Usable(fns, size) && d in data
    ensures Indexes(d, fns, size) <= AddAll(bits, data, fns, size)
  {
    var n := |data| - 1;
    if d != data[n] {
      assert d in data[..n];
      AddAllContains(bits, data[..n], d, fns, size);
    }
  }

  lemma {:induction false} AddAllKeeps(bits: set<int>, data: seq<bv64>, fns: seq<HashFn>, size: int)
    requires Usable(fns, size)
    ensures bits <= AddAll(bits, data, fns, size)
  {
    if data != [] {
      AddAllKeeps(bits, data[..|data| - 1], fns, size);
    }
  }

  function AtMostEight(k: nat): nat {
    if k > 8 then 8 else k
  }

  /** The filter for estimated parameters m and k; None when the source panics. */
  method NewInt64Bloom(m: int, k: int) returns (bf: Option<Int64BloomFilter>)
    requires IsInt64(m) && IsInt64(k)
    ensures bf.None? <==> m < 0 || m > MAX_SIZE || k < 0
    ensures bf.Some? ==> fresh(bf.value) && fresh(bf.value.bitmap) && fresh(bf.value.bitmap.bits) && bf.value.Valid()
    ensures bf.Some? ==> bf.value.elements == {} && bf.value.bitmap.Contents() == {}
    ensures bf.Some? ==> bf.value.fns == CreateHashFunctions(AtMostEight(k)) && bf.value.size == m
  {
    var bitmap := NewBitmap(m);
    if bitmap.None? || k < 0 {
      return None;
    }
    var f := new Int64BloomFilter(bitmap.value, k);
    return Some(f);
  }

  class Int64BloomFilter {
    const bitmap: Bitmap
    const fns: seq<HashFn>
    const size: int
    ghost var elements: set<bv64>   // everything added so far

    ghost predicate Valid()
      reads this, bitmap, bitmap.bits
    {
      && bitmap.Valid()
      && bitmap.size == size
      && NonNegative(fns)
      && (elements != {} ==> Usable(fns, size))
      && forall d :: d in elements ==> Indexes(d, fns, size) <= bitmap.Contents()
    }

    constructor (bitmap: Bitmap, k: nat)
      requires bitmap.Valid()
      ensures Valid() && this.bitmap == bitmap && elements == {} && size == bitmap.size
      ensures fns == CreateHashFunctions(AtMostEight(k))
    {
      this.bitmap := bitmap;
      HashesNonNegative(AtMostEight(k));
      fns := CreateHashFunctions(AtMostEight(k));
      size := bitmap.size;
      elements := {};
    }

    /** False when the source panics: the first remainder is then by zero. */
    method Add(data: bv64) returns (ok: bool)
      requires Valid()
      modifies this, bitmap.bits
      ensures Valid() && ok == Usable(fns, size)
      ensures elements == if ok then old(elements) + {data} else old(elements)
      ensures bitmap.Contents() == if ok then AddAll(old(bitmap.Contents()), [data], fns, size) else old(bitmap.Contents())
    {
      if !Usable(fns, size) {
        return false;
      }
      ghost var all := IndexSeq(data, fns, size);
      for n := 0 to |fns|
        invariant bitmap.Valid() && elements == old(elements)
        invariant bitmap.Contents() == old(bitmap.Contents()) + Elements(all[..n])
      {
        var stored := bitmap.Set(Remainder(fns[n](data), size));
        assert stored;
        NextElement(all, n);
      }
      assert all[..|fns|] == all;
      assert [data][..0] == [];
      elements := elements + {data};
      return true;
    }

    method MAdd(data: seq<bv64>) returns (ok: bool)
      requires Valid()
      modifies this, bitmap.bits
      ensures Valid() && ok == (data == [] || Usable(fns, size))
      ensures elements == if ok then old(elements) + (set d | d in data) else old(elements)
      ensures bitmap.Contents() ==
        if ok && data != [] then AddAll(old(bitmap.Contents()), data, fns, size) else old(bitmap.Contents())
    {
      if |data| == 0 {
        return true;
      }
      if !Usable(fns, size) {
        return false;
      }
      var indexes: seq<int> := [];
      ghost var bits := bitmap.Contents();
      for n := 0 to |data|
        invariant Valid() && bitmap.Contents() == bits && elements == old(elements)
        invariant forall i :: i in indexes ==> 0 <= i < size
        invariant bits + Elements(indexes) == AddAll(bits, data[..n], fns, size)
      {
        indexes := AppendIndexes(indexes, data[n]);
        assert data[..n + 1][..n] == data[..n];
      }
      assert data[..|data|] == data;
      var stored := bitmap.MSet(indexes);
      assert stored;
      elements := elements + (set d | d in data);
      AddAllKeeps(bits, data, fns, size);
      forall d | d in data ensures Indexes(d, fns, size) <= bitmap.Contents() {
        AddAllContains(bits, data, d, fns, size);
      }
      return true;
    }

    /** The inner loop of MAdd. */
    method AppendIndexes(indexes: seq<int>, data: bv64) returns (longer: seq<int>)
      requires Usable(fns, size) && NonNegative(fns) && forall i :: i in indexes ==> 0 <= i < size
      ensures forall i :: i in longer ==> 0 <= i < size
      ensures Elements(longer) == Elements(indexes) + Indexes(data, fns, size)
    {
      longer := indexes;
      for n := 0 to |fns|
        invariant longer == indexes + IndexSeq(data, fns, size)[..n]
        invariant forall i :: i in longer ==> 0 <= i < size
      {
        longer := longer + [Remainder(fns[n](data), size)];
      }
    }

    /** Never false for an element that was added; None when the source panics. */
    method Contains(data: bv64) returns (found: Option<bool>)
      requires Valid()
      ensures found.Some? <==> Usable(fns, size)
      ensures found.Some? ==> (found.value <==> Indexes(data, fns, size) <= bitmap.Contents())
      ensures data in elements ==> found == Some(true)
    {
      if !Usable(fns, size) {
        return None;
      }
      ghost var all := IndexSeq(data, fns, size);
      for n := 0 to |fns|
        invariant forall i :: i in all[..n] ==> i in bitmap.Contents()
      {
        var r := bitmap.IsSet(Remainder(fns[n](data), size));
        assert r.Some?;
        if !r.value {
          assert all[n] in Indexes(data, fns, size);
          return Some(false);
        }
        assert all[..n + 1] == all[..n] + [all[n]];
      }
      assert all[..|fns|] == all;
      return Some(true);
    }
  }

  /** Adding elements together leaves the same bits as adding them one after another, in any order. */
  lemma {:induction false} AddAllIsUnion(bits: set<int>, data: seq<bv64>, fns: seq<HashFn>, size: int)
    requires Usable(fns, size)
    ensures forall i :: i in AddAll(bits, data, fns, size) <==>
              i in bits || exists d :: d in data && i in Indexes(d, fns, size)
  {
    if data != [] {
      var n := |data| - 1;
      AddAllIsUnion(bits, data[..n], fns, size);
      forall i ensures i in AddAll(bits, data, fns, size) <==>
              i in bits || exists d :: d in data && i in Indexes(d, fns, size)
      {
        if i in Indexes(data[n], fns, size) {
          assert data[n] in data;
        } else if exists d :: d in data && i in Indexes(d, fns, size) {
          var d :| d in data && i in Indexes(d, fns, size);
          assert d in data[..n];
        }
      }
    }
  }
}

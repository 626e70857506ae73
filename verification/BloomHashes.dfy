/** How far a hash function of the filter can confuse elements: each of its steps can be undone up
    to one bit, so few elements share a value. */
module BloomHashes {
  import opened Common
  import opened BloomModel

  // ----- Undoing one step -----

  /** h ^ (h >> 33), the shift being logical. */
  function Unfold(x: bv64): bv64 {
    x ^ (x >> 33)
  }

  lemma UnfoldBits(h: bv64)
    ensures Unfold(h ^ (h >> 33)) == h
  {
  }

  lemma NegativeBits(h: bv64)
    requires h & SIGN != 0
    ensures (!h) ^ ((!h) >> 33) == h ^ ((h >> 33) | 0xffff_ffff_8000_0000)
  {
  }

  lemma FoldOfPositive(h: bv64)
    requires h & SIGN == 0
    ensures Fold(h) == h ^ (h >> 33)
  {
  }

  lemma FoldOfNegative(h: bv64)
    requires h & SIGN != 0
    ensures Fold(h) == h ^ ((h >> 33) | 0xffff_ffff_8000_0000)
  {
  }

  lemma FoldOfComplement(h: bv64)
    requires h & SIGN != 0
    ensures Fold(h) == (!h) ^ ((!h) >> 33)
  {
    NegativeBits(h);
    FoldOfNegative(h);
  }

  /** A word and its complement fold to the same word, and no other word does. */
  lemma FoldInverse(h: bv64)
    ensures Unfold(Fold(h)) in {h, !h}
  {
    if h & SIGN == 0 {
      FoldOfPositive(h);
      UnfoldBits(h);
    } else {
      FoldOfComplement(h);
      UnfoldBits(!h);
    }
  }

  // ----- The elements that can have a given value -----

  function Image<T>(xs: set<T>, f: T -> T): set<T> {
    set x | x in xs :: f(x)
  }

  lemma {:induction false} ImageSize<T>(xs: set<T>, f: T -> T)
    ensures |Image(xs, f)| <= |xs|
    decreases xs
  {
    if xs != {} {
      var x :| x in xs;
      ImageSize(xs - {x}, f);
      assert Image(xs, f) == Image(xs - {x}, f) + {f(x)};
    }
  }

  lemma InImage<T>(y: T, x: T, xs: set<T>, f: T -> T)
    requires y in xs && f(y) == x
    ensures x in Image(xs, f)
  {
  }

  lemma ComplementTwice(h: bv64, u: bv64)
    requires u in {h, !h}
    ensures h == u || h == !u
  {
  }

  /** The words that fold to one of xs. */
  function Unfolded(xs: set<bv64>): set<bv64> {
    Image(xs, Unfold) + Image(xs, OtherUnfold)
  }

  function OtherUnfold(x: bv64): bv64 {
    !Unfold(x)
  }

  lemma UnfoldOrOther(h: bv64)
    ensures h in {Unfold(Fold(h)), OtherUnfold(Fold(h))}
  {
    FoldInverse(h);
    ComplementTwice(h, Unfold(Fold(h)));
  }

  lemma InUnfolded(h: bv64, xs: set<bv64>)
    requires Fold(h) in xs
    ensures h in Unfolded(xs)
  {
    UnfoldOrOther(h);
    if h == Unfold(Fold(h)) { InImage(Fold(h), h, xs, Unfold); } else { InImage(Fold(h), h, xs, OtherUnfold); }
  }

  lemma UnfoldedSize(xs: set<bv64>)
    ensures |Unfolded(xs)| <= 2 * |xs|
  {
    ImageSize(xs, Unfold);
    ImageSize(xs, OtherUnfold);
  }

  // ----- Undoing the two constant factors -----

  function InnerBack(h: bv64): bv64 {
    h * 0xbc0418fc96969dd5
  }

  function OuterBack(h: bv64): bv64 {
    h * 0xff84fb0bd6ecac87
  }

  lemma InnerUndone(h: bv64)
    ensures InnerBack(h * 0x5136ead0f35b37d) == h
  {
  }

  lemma OuterUndone(h: bv64)
    ensures OuterBack(h * 0x4cf5ad432745937) == h
  {
  }

  lemma PeelInner(h: bv64, xs: set<bv64>)
    requires Fold(h * 0x5136ead0f35b37d) in xs
    ensures h in Image(Unfolded(xs), InnerBack)
  {
    InUnfolded(h * 0x5136ead0f35b37d, xs);
    InnerUndone(h);
    InImage(h * 0x5136ead0f35b37d, h, Unfolded(xs), InnerBack);
  }

  lemma PeelOuter(h: bv64)
    ensures h in Image(Unfolded({Fold(h * 0x4cf5ad432745937)}), OuterBack)
  {
    var v := Fold(h * 0x4cf5ad432745937);
    InUnfolded(h * 0x4cf5ad432745937, {v});
    OuterUndone(h);
    InImage(h * 0x4cf5ad432745937, h, Unfolded({v}), OuterBack);
  }

  /** The products of element and seed that can lead to v. */
  function Products(v: bv64): set<bv64> {
    Unfolded(Image(Unfolded(Image(Unfolded({v}), OuterBack)), InnerBack))
  }

  lemma PeelBoth(h: bv64)
    ensures h in Image(Unfolded(Image(Unfolded({Fold(Fold(h * 0x5136ead0f35b37d) * 0x4cf5ad432745937)}), OuterBack)), InnerBack)
  {
    PeelOuter(Fold(h * 0x5136ead0f35b37d));
    PeelInner(h, Image(Unfolded({Fold(Fold(h * 0x5136ead0f35b37d) * 0x4cf5ad432745937)}), OuterBack));
  }

  lemma PeelAll(t: bv64)
    ensures t in Products(Fold(Fold(Fold(t) * 0x5136ead0f35b37d) * 0x4cf5ad432745937))
  {
    PeelBoth(Fold(t));
    InUnfolded(t, Image(Unfolded(Image(Unfolded({Fold(Fold(Fold(t) * 0x5136ead0f35b37d) * 0x4cf5ad432745937)}), OuterBack)), InnerBack));
  }

  lemma InProducts(t: bv64)
    ensures t in Products(Fold(Mix(t)))
  {
    PeelAll(t);
  }

  lemma ProductsSize(v: bv64)
    ensures |Products(v)| <= 8
  {
    UnfoldedSize({v});
    ImageSize(Unfolded({v}), OuterBack);
    var xs := Image(Unfolded({v}), OuterBack);
    UnfoldedSize(xs);
    ImageSize(Unfolded(xs), InnerBack);
    UnfoldedSize(Image(Unfolded(xs), InnerBack));
  }

  // ----- Undoing the seeds -----

  ghost predicate UndoneAt(one: bv64 -> bv64, other: bv64 -> bv64, seed: bv64, d: bv64) {
    one(d * seed) == d || other(d * seed) == d
  }

  /** Of every product with the seed, one of the two functions gives the element back. */
  ghost predicate Undo(one: bv64 -> bv64, other: bv64 -> bv64, seed: bv64) {
    forall d :: UndoneAt(one, other, seed, d)
  }

  function FirstBack(h: bv64): bv64 {
    h * 0xf43e263079aab8c9
  }

  lemma FirstUndone(d: bv64)
    ensures FirstBack(d * 7540381766041133433) == d
  {
  }

  lemma FirstSeedUndone()
    ensures Undo(FirstBack, FirstBack, 7540381766041133433)
  {
    forall d ensures UndoneAt(FirstBack, FirstBack, 7540381766041133433, d) { FirstUndone(d); }
  }

  /** The second seed is even: twice the element is all that a product tells. */
  function SecondBack(h: bv64): bv64 {
    (h * 0x71de83e19937733d) >> 1
  }

  function SecondOtherBack(h: bv64): bv64 {
    ((h * 0x71de83e19937733d) >> 1) | SIGN
  }

  lemma SecondUndone(d: bv64)
    ensures SecondBack(d * 4354685564936845354) == d || SecondOtherBack(d * 4354685564936845354) == d
  {
  }

  lemma SecondSeedUndone()
    ensures Undo(SecondBack, SecondOtherBack, 4354685564936845354)
  {
    forall d ensures UndoneAt(SecondBack, SecondOtherBack, 4354685564936845354, d) { SecondUndone(d); }
  }

  function ThirdBack(h: bv64): bv64 {
    h * 0xfed3fb0fff659d91
  }

  lemma ThirdUndone(d: bv64)
    ensures ThirdBack(d * 6742423442829656945) == d
  {
  }

  lemma ThirdSeedUndone()
    ensures Undo(ThirdBack, ThirdBack, 6742423442829656945)
  {
    forall d ensures UndoneAt(ThirdBack, ThirdBack, 6742423442829656945, d) { ThirdUndone(d); }
  }

  function FourthBack(h: bv64): bv64 {
    h * 0x37ea183261285731
  }

  lemma FourthUndone(d: bv64)
    ensures FourthBack(d * 5864445385546375633) == d
  {
  }

  lemma FourthSeedUndone()
    ensures Undo(FourthBack, FourthBack, 5864445385546375633)
  {
    forall d ensures UndoneAt(FourthBack, FourthBack, 5864445385546375633, d) { FourthUndone(d); }
  }

  function FifthBack(h: bv64): bv64 {
    h * 0xf30ba9057a134187
  }

  lemma FifthUndone(d: bv64)
    ensures FifthBack(d * 6955415921471435831) == d
  {
  }

  lemma FifthSeedUndone()
    ensures Undo(FifthBack, FifthBack, 6955415921471435831)
  {
    forall d ensures UndoneAt(FifthBack, FifthBack, 6955415921471435831, d) { FifthUndone(d); }
  }

  function SixthBack(h: bv64): bv64 {
    h * 0x2ad325f4d45e94c3
  }

  lemma SixthUndone(d: bv64)
    ensures SixthBack(d * 2270897969802886123) == d
  {
  }

  lemma SixthSeedUndone()
    ensures Undo(SixthBack, SixthBack, 2270897969802886123)
  {
    forall d ensures UndoneAt(SixthBack, SixthBack, 2270897969802886123, d) { SixthUndone(d); }
  }

  function SeventhBack(h: bv64): bv64 {
    h * 0x981db78921bf78c9
  }

  lemma SeventhUndone(d: bv64)
    ensures SeventhBack(d * 6620516959819538809) == d
  {
  }

  lemma SeventhSeedUndone()
    ensures Undo(SeventhBack, SeventhBack, 6620516959819538809)
  {
    forall d ensures UndoneAt(SeventhBack, SeventhBack, 6620516959819538809, d) { SeventhUndone(d); }
  }

  lemma SeedUndone(i: nat) returns (one: bv64 -> bv64, other: bv64 -> bv64)
    requires i < 8
    ensures Undo(one, other, PRIMES[i]) && (i !in {1, 7} ==> other == one)
  {
    if i == 0 { FirstSeedUndone(); return FirstBack, FirstBack; }
    else if i == 2 { ThirdSeedUndone(); return ThirdBack, ThirdBack; }
    else if i == 3 { FourthSeedUndone(); return FourthBack, FourthBack; }
    else if i == 4 { FifthSeedUndone(); return FifthBack, FifthBack; }
    else if i == 5 { SixthSeedUndone(); return SixthBack, SixthBack; }
    else if i == 6 { SeventhSeedUndone(); return SeventhBack, SeventhBack; }
    else { SecondSeedUndone(); return SecondBack, SecondOtherBack; }
  }

  // ----- How many elements share a value -----

  /** The elements that can have the hash v. */
  function Candidates(v: bv64, one: bv64 -> bv64, other: bv64 -> bv64): set<bv64> {
    Image(Products(v), one) + Image(Products(v), other)
  }

  lemma InCandidates(d: bv64, seed: bv64, one: bv64 -> bv64, other: bv64 -> bv64)
    requires Undo(one, other, seed)
    ensures d in Candidates(Hash(d, seed), one, other)
  {
    InProducts(d * seed);
    assert UndoneAt(one, other, seed, d);
    if one(d * seed) == d {
      InImage(d * seed, d, Products(Hash(d, seed)), one);
    } else {
      InImage(d * seed, d, Products(Hash(d, seed)), other);
    }
  }

  lemma CandidatesSize(v: bv64, one: bv64 -> bv64, other: bv64 -> bv64)
    ensures |Candidates(v, one, other)| <= 16 && (other == one ==> |Candidates(v, one, other)| <= 8)
  {
    ProductsSize(v);
    ImageSize(Products(v), one);
    ImageSize(Products(v), other);
    assert other == one ==> Candidates(v, one, other) == Image(Products(v), one);
  }

  lemma {:induction false} SubsetSize<T>(a: set<T>, b: set<T>)
    requires a <= b
    ensures |a| <= |b|
    decreases a
  {
    if a != {} {
      var x :| x in a;
      SubsetSize(a - {x}, b - {x});
    }
  }

  lemma SameWord(a: bv64, b: bv64)
    requires a as int == b as int
    ensures a == b
  {
    BackFromInt(a);
    BackFromInt(b);
  }

  lemma BackFromInt(a: bv64)
    ensures (a as int) as bv64 == a
  {
  }

  lemma SameFold(g: bv64, h: bv64)
    requires Int64(Fold(g)) == Int64(Fold(h))
    ensures Fold(g) == Fold(h)
  {
    FoldClearsSign(g);
    FoldClearsSign(h);
    SameWord(Fold(g), Fold(h));
  }

  lemma AnElement<T>(s: set<T>) returns (x: T)
    requires s != {}
    ensures x in s
  {
    x :| x in s;
  }

  lemma SameHash(d: bv64, e: bv64, seed: bv64)
    requires Int64(Hash(d, seed)) == Int64(Hash(e, seed))
    ensures Hash(d, seed) == Hash(e, seed)
  {
    SameFold(Mix(d * seed), Mix(e * seed));
  }

  lemma CandidateFor(d: bv64, e: bv64, seed: bv64, one: bv64 -> bv64, other: bv64 -> bv64)
    requires Int64(Hash(d, seed)) == Int64(Hash(e, seed)) && Undo(one, other, seed)
    ensures d in Candidates(Hash(e, seed), one, other)
  {
    SameHash(d, e, seed);
    InCandidates(d, seed, one, other);
  }

  lemma FunctionIs(k: nat, i: nat, d: bv64)
    requires i < k <= 8
    ensures CreateHashFunctions(k)[i](d) == Int64(Hash(d, PRIMES[i]))
  {
  }

  /** No value of a hash function belongs to more than 8 elements, or 16 for the even prime. */
  lemma CollisionsBounded(k: nat, i: nat, elements: set<bv64>, v: int)
    requires i < k <= 8 && forall d :: d in elements ==> CreateHashFunctions(k)[i](d) == v
    ensures |elements| <= if i in {1, 7} then 16 else 8
  {
    if elements != {} {
      var one, other := SeedUndone(i);
      var first := AnElement(elements);
      FunctionIs(k, i, first);
      forall d | d in elements ensures d in Candidates(Hash(first, PRIMES[i]), one, other) {
        FunctionIs(k, i, d);
        CandidateFor(d, first, PRIMES[i], one, other);
      }
      SubsetSize(elements, Candidates(Hash(first, PRIMES[i]), one, other));
      CandidatesSize(Hash(first, PRIMES[i]), one, other);
    }
  }

  // ----- The even prime -----

  predicate SignForgotten(seed: bv64, d: bv64) {
    (d + SIGN) * seed == d * seed
  }

  ghost predicate ForgetsSign(seed: bv64) {
    forall d :: SignForgotten(seed, d)
  }

  lemma SignLost(d: bv64)
    ensures (d + 0x8000_0000_0000_0000) * 4354685564936845354 == d * 4354685564936845354
  {
  }

  lemma SecondForgetsSign()
    ensures ForgetsSign(4354685564936845354)
  {
    forall d ensures SignForgotten(4354685564936845354, d) { SignLost(d); }
  }

  lemma SignMeansNothing(d: bv64, seed: bv64)
    requires ForgetsSign(seed)
    ensures Hash(d + SIGN, seed) == Hash(d, seed)
  {
    assert SignForgotten(seed, d);
  }

  /** The function of the even prime cannot tell apart elements that differ by 2^63. */
  lemma EvenPrimeForgetsSign(k: nat, d: bv64)
    requires 1 < k <= 8
    ensures CreateHashFunctions(k)[1](d + SIGN) == CreateHashFunctions(k)[1](d)
  {
    SecondForgetsSign();
    FunctionIs(k, 1, d);
    FunctionIs(k, 1, d + SIGN);
    SignMeansNothing(d, PRIMES[1]);
  }
}

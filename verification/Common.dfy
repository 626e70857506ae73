/** Small shared vocabulary. */
module Common {

  datatype Option<+T> = None | Some(value: T)

  /** Which participant of a step system holds something. */
  datatype Holder = Nobody | By(id: nat)

  // ----- 64-bit integers -----

  const TWO63: int := 0x8000_0000_0000_0000
  const TWO64: int := 0x1_0000_0000_0000_0000
  const MIN_INT64: int := -TWO63

  predicate IsInt64(k: int) {
    -TWO63 <= k < TWO63
  }

  /** Negation of an int64, which wraps for the least value. */
  function NegateInt64(k: int): int {
    if k == MIN_INT64 then k else -k
  }

  /** The int64 a sum or product wraps to. */
  function WrapInt64(x: int): (k: int)
    ensures IsInt64(k)
    ensures IsInt64(x) ==> k == x
  {
    (x + TWO63) % TWO64 - TWO63
  }

  // ----- Decimal digits -----

  /** Decimal digits of a non-negative number, as strconv.Itoa and "%d" print it. */
  function Decimal(n: nat): (s: string)
    ensures |s| > 0 && AllDigits(s)
  {
    if n < 10 then [Digit(n)] else Decimal(n / 10) + [Digit(n % 10)]
  }

  function Digit(n: nat): (c: char)
    requires n < 10
    ensures '0' <= c <= '9'
  {
    "0123456789"[n]
  }

  predicate AllDigits(s: string) {
    forall c :: c in s ==> '0' <= c <= '9'
  }

  /** The number that digits stand for. */
  function NumberOf(s: string): int {
    if s == "" then 0 else 10 * NumberOf(s[..|s| - 1]) + (s[|s| - 1] as int - '0' as int)
  }

  lemma DigitReadsBack(n: nat)
    requires n < 10
    ensures Digit(n) as int - '0' as int == n
  {
  }

  /** What is printed reads back, and has no leading zero. */
  lemma {:induction false} DecimalReadsBack(n: nat)
    ensures NumberOf(Decimal(n)) == n
    ensures |Decimal(n)| > 1 ==> Decimal(n)[0] != '0'
    ensures n > 0 ==> Decimal(n)[0] != '0'
    ensures |Decimal(n)| == 1 <==> n < 10
    decreases n
  {
    if n < 10 {
      DigitReadsBack(n);
      assert [Digit(n)][..0] == "";
    } else {
      DecimalReadsBack(n / 10);
      DigitReadsBack(n % 10);
      assert Decimal(n)[..|Decimal(n)| - 1] == Decimal(n / 10);
    }
  }

  // ----- Text -----

  lemma Regroup(a: string, b: string, c: string)
    ensures a + (b + c) == (a + b) + c
  {
  }

  /** strings.Split by one character. */
  function Split(s: string, sep: char): (parts: seq<string>)
    ensures |parts| >= 1
    ensures forall p :: p in parts ==> sep !in p
  {
    if s == "" then [""] else InFront(s[0], Split(s[1..], sep), sep)
  }

  /** One more character in front: a separator opens a new part, any other joins the first. */
  function InFront(c: char, parts: seq<string>, sep: char): (more: seq<string>)
    requires |parts| >= 1 && forall p :: p in parts ==> sep !in p
    ensures |more| >= 1 && forall p :: p in more ==> sep !in p
  {
    if c == sep then [""] + parts else [[c] + parts[0]] + parts[1..]
  }

  lemma InFrontOfMore(c: char, p: seq<string>, q: seq<string>, sep: char)
    requires |p| >= 1 && forall x :: x in p + q ==> sep !in x
    requires forall x :: x in p ==> sep !in x
    ensures InFront(c, p + q, sep) == InFront(c, p, sep) + q
  {
    assert (p + q)[1..] == p[1..] + q;
  }

  lemma {:induction false} SplitJoined(a: string, b: string, sep: char)
    ensures Split(a + [sep] + b, sep) == Split(a, sep) + Split(b, sep)
    decreases |a|
  {
    if a == "" {
      assert ("" + [sep] + b)[1..] == b;
    } else {
      assert (a + [sep] + b)[1..] == a[1..] + [sep] + b;
      SplitJoined(a[1..], b, sep);
      InFrontOfMore(a[0], Split(a[1..], sep), Split(b, sep), sep);
    }
  }

  lemma {:induction false} SplitSingle(s: string, sep: char)
    requires sep !in s
    ensures Split(s, sep) == [s]
    decreases |s|
  {
    if s != "" {
      assert s[0] in s && forall c :: c in s[1..] ==> c in s;
      SplitSingle(s[1..], sep);
      assert s == [s[0]] + s[1..];
    }
  }
}

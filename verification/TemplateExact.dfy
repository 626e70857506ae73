/** When the seven replacements are not one pass: a text that mixes them up for every unsafe value. */
module TemplateExact {
  import opened Common
  import opened Template

  // ----- Texts that one pass changes -----

  predicate Numeric(v: string) {
    v != "" && forall c :: c in v ==> '0' <= c <= '9' || c == '-'
  }

  /** Every value is a number or its own placeholder, except perhaps a weekday name. */
  predicate NumbersOrSame(values: seq<string>) {
    |values| == 7 && forall k :: 0 <= k < 7 ==> values[k] == Placeholder(k) || NumberOrName(values, k)
  }

  predicate NumberOrName(values: seq<string>, k: nat)
    requires k < |values|
  {
    Numeric(values[k]) || (k == 3 && values[k] != "")
  }

  /** Some placeholder in s has a value other than itself. */
  predicate Changes(s: string, values: seq<string>)
    requires |values| == 7
  {
    s != "" &&
    var k := Match(s, 7);
    if k < 7 then values[k] != Placeholder(k) || Changes(s[4..], values) else Changes(s[1..], values)
  }

  lemma {:induction false} UnchangedCopied(s: string, values: seq<string>)
    requires |values| == 7 && !Changes(s, values)
    ensures OnePass(s, values, 7) == s
    decreases |s|
  {
    if s != "" {
      UnchangedCopied(if Match(s, 7) < 7 then s[4..] else s[1..], values);
    }
  }

  lemma {:induction false} OccurrenceChanges(a: string, j: nat, b: string, values: seq<string>)
    requires j < 7 == |values| && values[j] != Placeholder(j)
    ensures Changes(a + (Placeholder(j) + b), values)
    decreases |a|
  {
    var r := Placeholder(j) + b;
    if a == "" {
      assert a + r == r;
      OneMatch(r, Match(r, 7), j);
    } else {
      SameMatch(a, r);
      var n := if Match(a, 7) < 7 then 4 else 1;
      assert (a + r)[n..] == a[n..] + r;
      OccurrenceChanges(a[n..], j, b, values);
    }
  }

  /** The last placeholder that is changed. */
  lemma {:induction false} LastChange(s: string, values: seq<string>) returns (a: string, k: nat, b: string)
    requires |values| == 7 && Changes(s, values)
    ensures k < 7 && values[k] != Placeholder(k) && s == a + (Placeholder(k) + b)
    ensures OnePass(b, values, 7) == b
    decreases |s|
  {
    k := Match(s, 7);
    if k < 7 && !Changes(s[4..], values) {
      a, b := "", s[4..];
      UnchangedCopied(b, values);
    } else {
      var n := if k < 7 then 4 else 1;
      a, k, b := LastChange(s[n..], values);
      assert s == s[..n] + s[n..];
      a := s[..n] + a;
    }
  }

  // ----- No changed text stays the same -----

  /** Laid over each other with their ends together, a and b nowhere disagree. */
  predicate EndsAgree(a: string, b: string) {
    if |a| <= |b| then b[|b| - |a|..] == a else a[|a| - |b|..] == b
  }

  lemma SuffixesAgree(x: string, v: string, y: string, p: string)
    requires x + v == y + p
    ensures EndsAgree(v, p)
  {
    var s := x + v;
    assert s[|s| - |v|..] == v && s[|s| - |p|..] == p;
  }

  lemma NumberStarts(v: string, k: nat, rest: string)
    requires Numeric(v) && k < 7
    ensures !(Placeholder(k) <= v + rest)
  {
    assert v[0] in v && (v + rest)[0] == v[0];
  }

  /** If one pass leaves a changed text as it was, its first change is at a weekday whose name
      overlaps the placeholder. */
  lemma {:induction false} FirstChangeAgrees(s: string, values: seq<string>)
    requires NumbersOrSame(values) && Changes(s, values) && OnePass(s, values, 7) == s
    ensures values[3] != Placeholder(3) && Agree(values[3], Placeholder(3))
    decreases |s|
  {
    var k := Match(s, 7);
    if k == 7 {
      var x := OnePass(s, values, 7);
      assert x[1..] == OnePass(s[1..], values, 7);
      FirstChangeAgrees(s[1..], values);
    } else if values[k] == Placeholder(k) {
      var x := OnePass(s, values, 7);
      assert x[4..] == OnePass(s[4..], values, 7);
      FirstChangeAgrees(s[4..], values);
    } else {
      assert NumberOrName(values, k);
      if Numeric(values[k]) {
        NumberStarts(values[k], k, OnePass(s[4..], values, 7));
      } else {
        PrefixesAgree(values[3], OnePass(s[4..], values, 7), Placeholder(3));
      }
    }
  }

  /** ... and so is its last. */
  lemma LastChangeAgrees(s: string, values: seq<string>) returns (a: string, b: string)
    requires NumbersOrSame(values) && Changes(s, values) && OnePass(s, values, 7) == s
    ensures EndsAgree(values[3], Placeholder(3)) && s == a + (Placeholder(3) + b)
  {
    var k;
    a, k, b := LastChange(s, values);
    OnePassSplits(a, Placeholder(k) + b, values);
    OnePassAtPlaceholder(k, b, values);
    var x := OnePass(a, values, 7);
    SameTail(x, values[k], a, Placeholder(k), b);
    SuffixesAgree(x, values[k], a, Placeholder(k));
    assert NumberOrName(values, k);
    if Numeric(values[k]) { NumberEnds(values[k], k); }
  }

  lemma SameTail(x: string, v: string, a: string, p: string, b: string)
    requires x + (v + b) == a + (p + b)
    ensures x + v == a + p
  {
    var s := x + (v + b);
    assert s[..|s| - |b|] == x + v && s[..|s| - |b|] == a + p;
  }

  lemma NumberEnds(v: string, k: nat)
    requires Numeric(v) && k < 7
    ensures !EndsAgree(v, Placeholder(k))
  {
    var p := Placeholder(k);
    assert v[|v| - 1] in v && p[3] == '}';
    if |v| <= 4 { assert p[4 - |v|..][|v| - 1] == p[3]; }
    else { assert v[|v| - 4..][3] == v[|v| - 1]; }
  }

  lemma ShortEnd(v: string, p: string)
    requires 1 <= |v| < |p| && EndsAgree(v, p)
    ensures v[0] == p[|p| - |v|]
  {
    assert p[|p| - |v|..][0] == v[0];
  }

  lemma Overlapping(v: string, p: string)
    requires |p| <= |v| < 2 * |p| && p <= v && EndsAgree(v, p)
    ensures p[|v| - |p|] == p[0]
  {
    assert v[|v| - |p|..][0] == p[0];
  }

  /** A name that overlaps a different placeholder at both ends holds it twice. */
  lemma HoldsTwice(v: string, k: nat) returns (middle: string)
    requires k < 7 && v != "" && v != Placeholder(k)
    requires Agree(v, Placeholder(k)) && EndsAgree(v, Placeholder(k))
    ensures v == Placeholder(k) + (middle + Placeholder(k))
  {
    var p := Placeholder(k);
    assert v[0] == p[0] == '{';
    assert forall q :: 1 <= q < 4 ==> p[q] != '{';
    if |v| < 4 {
      ShortEnd(v, p);
    } else if |v| < 8 {
      Overlapping(v, p);
    }
    middle := v[4..|v| - 4];
    assert v == v[..4] + (v[4..|v| - 4] + v[|v| - 4..]);
  }

  function Count(s: string, k: nat): nat
    requires k < 7
  {
    if s == "" then 0 else if Placeholder(k) <= s then 1 + Count(s[4..], k) else Count(s[1..], k)
  }

  lemma {:induction false} CountSplits(a: string, r: string, k: nat)
    requires CleanCut(r) && k < 7
    ensures Count(a + r, k) == Count(a, k) + Count(r, k)
    decreases |a|
  {
    if a == "" {
      assert a + r == r;
    } else {
      NoStraddle(a, r, k);
      var n := if Placeholder(k) <= a then 4 else 1;
      assert (a + r)[n..] == a[n..] + r;
      CountSplits(a[n..], r, k);
    }
  }

  lemma CountAtPlaceholder(k: nat, r: string)
    requires k < 7
    ensures Count(Placeholder(k) + r, k) == 1 + Count(r, k)
  {
    assert (Placeholder(k) + r)[4..] == r;
  }

  lemma {:induction false} CountNoLess(p: string, r: string, k: nat)
    requires k < 7
    ensures Count(p + r, k) >= Count(r, k)
    decreases |p|
  {
    if p == "" {
      assert p + r == r;
    } else {
      assert p + r == [p[0]] + (p[1..] + r);
      CountNoLess(p[1..], r, k);
      CountInFront(p[0], p[1..] + r, k);
    }
  }

  lemma CountInFront(c: char, x: string, k: nat)
    requires k < 7
    ensures Count([c] + x, k) >= Count(x, k)
  {
    var s := [c] + x;
    assert s[1..] == x;
    if Placeholder(k) <= s {
      var inner := Placeholder(k)[1..];
      assert s == Placeholder(k) + s[4..];
      assert x == inner + s[4..];
      CountSkips(inner, s[4..], k);
    }
  }

  lemma {:induction false} CountSkips(p: string, r: string, k: nat)
    requires k < 7 && '{' !in p
    ensures Count(p + r, k) == Count(r, k)
    decreases |p|
  {
    if p == "" {
      assert p + r == r;
    } else {
      assert (p + r)[0] == p[0] && p[0] in p;
      assert (p + r)[1..] == p[1..] + r;
      CountSkips(p[1..], r, k);
    }
  }

  /** Inserting a name that holds its placeholder twice doubles their number at least. */
  lemma {:induction false} CountDoubles(s: string, values: seq<string>, middle: string)
    requires |values| == 7 && values[3] == Placeholder(3) + (middle + Placeholder(3))
    ensures Count(OnePass(s, values, 7), 3) >= 2 * Count(s, 3)
    decreases |s|
  {
    if s != "" {
      var k := Match(s, 7);
      if k < 7 {
        var rest := OnePass(s[4..], values, 7);
        CountDoubles(s[4..], values, middle);
        if k == 3 {
          CountTwice(middle, rest);
        } else {
          if Placeholder(3) <= s { OneMatch(s, 3, k); }
          CountNoLess(values[k], rest, 3);
          assert s[1..] == Placeholder(k)[1..] + s[4..];
          CountSkips(Placeholder(k)[1..], s[4..], 3);
        }
      } else {
        CountDoubles(s[1..], values, middle);
        CountInFront(s[0], OnePass(s[1..], values, 7), 3);
      }
    }
  }

  lemma CountTwice(middle: string, rest: string)
    ensures var p := Placeholder(3); Count((p + (middle + p)) + rest, 3) >= 2 + Count(rest, 3)
  {
    var p := Placeholder(3);
    assert (p + (middle + p)) + rest == p + (middle + (p + rest));
    CountAtPlaceholder(3, middle + (p + rest));
    CountSplits(middle, p + rest, 3);
    CountAtPlaceholder(3, rest);
  }

  lemma NoChangedFixpoint(s: string, values: seq<string>)
    requires NumbersOrSame(values) && Changes(s, values)
    ensures OnePass(s, values, 7) != s
  {
    if OnePass(s, values, 7) == s {
      FirstChangeAgrees(s, values);
      var a, b := LastChangeAgrees(s, values);
      assert NumberOrName(values, 3);
      var middle := HoldsTwice(values[3], 3);
      CountDoubles(s, values, middle);
      CountSplits(a, Placeholder(3) + b, 3);
      CountAtPlaceholder(3, b);
    }
  }

  // ----- A text on which replacement meets an unsafe value -----

  lemma {:induction false} ReplaceCopies(p: string, r: string, k: nat, value: string)
    requires k < 7 && '{' !in p
    ensures ReplaceAll(p + r, Placeholder(k), value) == p + ReplaceAll(r, Placeholder(k), value)
    decreases |p|
  {
    if p == "" {
      assert p + r == r;
    } else {
      var s := p + r;
      assert s[0] == p[0] && p[0] in p;
      assert s[1..] == p[1..] + r;
      ReplaceCopies(p[1..], r, k, value);
      assert p == [p[0]] + p[1..];
    }
  }

  /** The start of a placeholder, cut off before its end, or nothing. */
  predicate Fragment(pre: string) {
    |pre| < 4 && (pre != "" ==> pre[0] == '{' && '{' !in pre[1..])
  }

  /** A fragment followed by a brace starts no placeholder. */
  lemma FragmentStartsNone(pre: string, r: string, k: nat)
    requires Fragment(pre) && pre != "" && r != "" && r[0] == '{' && k < 7
    ensures !(Placeholder(k) <= pre + r)
  {
    assert (pre + r)[|pre|] == '{';
    assert Placeholder(k)[|pre|] != '{';
  }

  lemma ReplaceSkips(s: string, pat: string, value: string)
    requires pat != "" && s != "" && !(pat <= s)
    ensures ReplaceAll(s, pat, value) == [s[0]] + ReplaceAll(s[1..], pat, value)
  {
  }

  lemma ReplaceAfterFragment(pre: string, r: string, k: nat, value: string)
    requires Fragment(pre) && r != "" && r[0] == '{' && k < 7
    ensures ReplaceAll(pre + r, Placeholder(k), value) == pre + ReplaceAll(r, Placeholder(k), value)
  {
    if pre == "" {
      assert pre + r == r;
    } else {
      FragmentStartsNone(pre, r, k);
      ReplaceSkips(pre + r, Placeholder(k), value);
      assert (pre + r)[1..] == pre[1..] + r;
      ReplaceCopies(pre[1..], r, k, value);
      HeadAside(pre, ReplaceAll(r, Placeholder(k), value));
    }
  }

  lemma ReplaceWhole(s: string, k: nat, value: string)
    requires k < 7 && '{' !in s
    ensures ReplaceAll(s, Placeholder(k), value) == s
  {
    assert s + "" == s;
    ReplaceCopies(s, "", k, value);
  }

  lemma ReplaceOther(i: nat, post: string, k: nat, value: string)
    requires i < 7 && k < 7 && i != k && '{' !in post
    ensures ReplaceAll(Placeholder(i) + post, Placeholder(k), value) == Placeholder(i) + post
  {
    var r := Placeholder(i) + post;
    if Placeholder(k) <= r { OneMatch(r, i, k); }
    var tail := "%" + [LETTERS[i]] + "}" + post;
    assert r[1..] == tail;
    assert r == [r[0]] + tail;
    ReplaceWhole(tail, k, value);
  }

  lemma ReplaceAtWitness(pre: string, i: nat, post: string, k: nat, value: string)
    requires Fragment(pre) && i < 7 && k < 7 && '{' !in post
    ensures ReplaceAll(pre + (Placeholder(i) + post), Placeholder(k), value) ==
      pre + ((if i == k then value else Placeholder(i)) + post)
  {
    var r := Placeholder(i) + post;
    ReplaceAfterFragment(pre, r, k, value);
    if i == k {
      ReplaceWhole(post, k, value);
      assert r[4..] == post;
    } else {
      ReplaceOther(i, post, k, value);
    }
  }

  lemma {:induction false} ShortCopied(pre: string, values: seq<string>)
    requires |pre| < 4 && |values| == 7
    ensures OnePass(pre, values, 7) == pre
    decreases |pre|
  {
    if pre != "" { ShortCopied(pre[1..], values); }
  }

  lemma OnePassAtWitness(pre: string, i: nat, post: string, values: seq<string>)
    requires Fragment(pre) && i < 7 == |values| && '{' !in post
    ensures OnePass(pre + (Placeholder(i) + post), values, 7) == pre + (values[i] + post)
  {
    OnePassSplits(pre, Placeholder(i) + post, values);
    ShortCopied(pre, values);
    OnePassAtPlaceholder(i, post, values);
    assert post + "" == post;
    LiteralsCopied(post, "", values, 7);
  }

  /** An unsafe value can be surrounded so that a later placeholder appears. */
  lemma Surround(v: string, j: nat) returns (pre: string, post: string, a: string, b: string)
    requires j < 7 && !Safe(v, Placeholder(j))
    ensures Fragment(pre) && '{' !in post && pre + (v + post) == a + Placeholder(j) + b
  {
    var pat := Placeholder(j);
    if p :| 0 <= p < |v| && Agree(v[p..], pat) {
      post, b := SurroundEnd(v, v[p..], v[..p], j);
      pre, a := "", v[..p];
    } else {
      var q :| 1 <= q < |pat| && Agree(v, pat[q..]);
      pre, a := pat[..q], "";
      post, b := SurroundStart(v, q, j);
    }
  }

  lemma SurroundEnd(v: string, u: string, a: string, j: nat) returns (post: string, b: string)
    requires j < 7 && v == a + u && u != "" && Agree(u, Placeholder(j))
    ensures '{' !in post && "" + (v + post) == a + Placeholder(j) + b
  {
    var pat := Placeholder(j);
    if u <= pat {
      post, b := pat[|u|..], "";
      assert pat == u + post;
    } else {
      post, b := "", u[4..];
      assert u == pat + b;
    }
  }

  lemma SurroundStart(v: string, q: nat, j: nat) returns (post: string, b: string)
    requires j < 7 && 1 <= q < 4 && Agree(v, Placeholder(j)[q..])
    ensures '{' !in post && Placeholder(j)[..q] + (v + post) == "" + Placeholder(j) + b
  {
    var pat := Placeholder(j);
    var front, tail := pat[..q], pat[q..];
    assert pat == front + tail;
    assert '{' !in tail;
    if v <= tail {
      post, b := tail[|v|..], "";
      assert tail == v + post;
      assert "" + pat + b == pat;
    } else {
      post, b := "", v[|tail|..];
      assert v + post == tail + b;
      assert front + (tail + b) == "" + pat + b;
    }
  }

  lemma {:induction false} PhasesBefore(t: string, pre: string, i: nat, post: string, values: seq<string>, n: nat)
    requires Fragment(pre) && '{' !in post && n <= i < 7 == |values| && t == pre + (Placeholder(i) + post)
    ensures Sequential(t, values, n) == t
    decreases n
  {
    if n > 0 {
      PhasesBefore(t, pre, i, post, values, n - 1);
      ReplaceAtWitness(pre, i, post, n - 1, values[n - 1]);
    }
  }

  /** The values after the i-th; the others change nothing. */
  function After(values: seq<string>, i: nat): (after: seq<string>)
    requires |values| == 7
    ensures |after| == 7
    ensures forall k :: 0 <= k < 7 ==> after[k] == if k <= i then Placeholder(k) else values[k]
  {
    seq(7, k requires 0 <= k < 7 => if k <= i then Placeholder(k) else values[k])
  }

  lemma PlaceholdersSafe(k: nat, n: nat)
    requires k < n < 7
    ensures Safe(Placeholder(k), Placeholder(n))
  {
    var v, pat := Placeholder(k), Placeholder(n);
    assert LETTERS[k] != LETTERS[n];
    forall p | 0 <= p < 4 ensures !Agree(v[p..], pat) {
      assert v[p..][0] == v[p] && pat[0] == '{';
      assert p == 0 ==> v[p..][2] != pat[2];
    }
    forall q | 1 <= q < 4 ensures !Agree(v, pat[q..]) {
      assert pat[q..][0] == pat[q] && v[0] == '{';
    }
  }

  lemma AfterSafe(values: seq<string>, i: nat)
    requires |values| == 7 && i < 7
    requires forall k, n :: i < k < n < 7 ==> Safe(values[k], Placeholder(n))
    ensures AllSafe(After(values, i))
  {
    var v := After(values, i);
    forall n | 0 <= n < 7 ensures SafeStep(v, n) {
      if n > i {
        forall k | 0 <= k < n ensures Safe(v[k], Placeholder(n)) {
          if k <= i { PlaceholdersSafe(k, n); }
        }
        assert SafeBelow(v, n);
      }
    }
  }

  /** The replacements after the i-th, seen as all replacements of another text. */
  lemma {:induction false} GoingOn(t: string, x: string, i: nat, values: seq<string>, n: nat)
    requires i < n <= 7 == |values| && Sequential(t, values, i + 1) == x
    ensures Sequential(t, values, n) == Sequential(x, After(values, i), n)
    decreases n
  {
    if n > i + 1 {
      GoingOn(t, x, i, values, n - 1);
    } else {
      StandingStill(x, i, values, n);
    }
  }

  lemma {:induction false} StandingStill(x: string, i: nat, values: seq<string>, n: nat)
    requires n <= i + 1 && n <= 7 == |values|
    ensures Sequential(x, After(values, i), n) == x
    decreases n
  {
    if n > 0 {
      StandingStill(x, i, values, n - 1);
      ReplaceSame(x, Placeholder(n - 1));
    }
  }

  /** An unsafe value mixes up the replacements of some text. */
  lemma UnsafeValueDiffers(i: nat, j: nat, values: seq<string>)
    requires i < j < 7 == |values| && !Safe(values[i], Placeholder(j)) && values[j] != Placeholder(j)
    requires forall k, n :: i < k < n < 7 ==> Safe(values[k], Placeholder(n))
    requires NumbersOrSame(After(values, i))
    ensures exists t :: t != "" && Sequential(t, values, 7) != OnePass(t, values, 7)
  {
    var pre, post, a, b := Surround(values[i], j);
    var t, x := AtWitness(pre, i, post, values);
    Regroup(a, Placeholder(j), b);
    OccurrenceChanges(a, j, b, After(values, i));
    NoChangedFixpoint(x, After(values, i));
    assert t != "" && Sequential(t, values, 7) != OnePass(t, values, 7);
  }

  /** Around the i-th value, one pass stops at that value and the replacements go on. */
  lemma AtWitness(pre: string, i: nat, post: string, values: seq<string>) returns (t: string, x: string)
    requires Fragment(pre) && '{' !in post && i < 7 == |values|
    requires forall k, n :: i < k < n < 7 ==> Safe(values[k], Placeholder(n))
    ensures t != "" && x == pre + (values[i] + post)
    ensures OnePass(t, values, 7) == x && Sequential(t, values, 7) == OnePass(x, After(values, i), 7)
  {
    t, x := pre + (Placeholder(i) + post), pre + (values[i] + post);
    PhasesBefore(t, pre, i, post, values, i);
    ReplaceAtWitness(pre, i, post, i, values[i]);
    OnePassAtWitness(pre, i, post, values);
    GoingOn(t, x, i, values, 7);
    AfterSafe(values, i);
    SequentialIsOnePass(x, After(values, i), 7);
  }
}

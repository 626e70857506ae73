/** Locale.FormatTemplate: seven replacements one after another, against substitution in one pass. */
module Template {
  import opened Common

  /** strings.ReplaceAll for a non-empty pattern. */
  function ReplaceAll(s: string, pat: string, value: string): string
    requires pat != ""
  {
    if s == "" then ""
    else if pat <= s then value + ReplaceAll(s[|pat|..], pat, value)
    else [s[0]] + ReplaceAll(s[1..], pat, value)
  }

  /** The letters in the order of the replacements. */
  const LETTERS: string := "yMdwhms"

  function Placeholder(k: nat): (p: string)
    requires k < 7
    ensures |p| == 4
  {
    "{%" + [LETTERS[k]] + "}"
  }

  /** The first n replacements. */
  function Sequential(s: string, values: seq<string>, n: nat): string
    requires n <= 7 == |values|
  {
    if n == 0 then s else ReplaceAll(Sequential(s, values, n - 1), Placeholder(n - 1), values[n - 1])
  }

  /** The placeholder, among the first n, that s starts with; 7 if none. */
  function Match(s: string, n: nat): (k: nat)
    requires n <= 7
    ensures k < n || k == 7
    ensures k < 7 ==> Placeholder(k) <= s
    ensures k == 7 ==> forall j :: 0 <= j < n ==> !(Placeholder(j) <= s)
  {
    if n == 0 then 7 else if Placeholder(n - 1) <= s then n - 1 else Match(s, n - 1)
  }

  /** Substitution of the first n placeholders in one pass from left to right. */
  function OnePass(s: string, values: seq<string>, n: nat): string
    requires n <= 7 == |values|
  {
    if s == "" then ""
    else
      var k := Match(s, n);
      if k < 7 then values[k] + OnePass(s[4..], values, n) else [s[0]] + OnePass(s[1..], values, n)
  }

  // ----- When an inserted value cannot take part in a later placeholder -----

  /** Laid over each other from their starts, a and b nowhere disagree. */
  predicate Agree(a: string, b: string) {
    a <= b || b <= a
  }

  /** At no offset does v overlap a placeholder without disagreeing with it. */
  ghost predicate Safe(v: string, pat: string) {
    && (forall i :: 0 <= i < |v| ==> !Agree(v[i..], pat))
    && (forall j :: 1 <= j < |pat| ==> !Agree(v, pat[j..]))
  }

  ghost predicate SafeBelow(values: seq<string>, n: nat)
    requires n < 7 == |values|
  {
    forall k :: 0 <= k < n ==> Safe(values[k], Placeholder(n))
  }

  /** Different placeholders start no string together. */
  lemma OneMatch(s: string, j: nat, k: nat)
    requires j < 7 && k < 7 && Placeholder(j) <= s && Placeholder(k) <= s
    ensures j == k
  {
    assert Placeholder(j)[2] == s[2] == Placeholder(k)[2];
  }

  /** The tail of a placeholder that shows at the start of a substituted text was there before. */
  lemma {:induction false} TailWasThere(s: string, values: seq<string>, n: nat, j: nat)
    requires n < 7 == |values| && SafeBelow(values, n) && 1 <= j <= 4
    requires Placeholder(n)[j..] <= OnePass(s, values, n)
    ensures Placeholder(n)[j..] <= s
    decreases 4 - j
  {
    var pat := Placeholder(n);
    if j < 4 {
      var x := OnePass(s, values, n);
      assert x[0] == pat[j];
      var k := Match(s, n);
      if k < 7 {
        assert Agree(values[k], pat[j..]);
        assert false;
      } else {
        assert pat[j + 1..] == pat[j..][1..];
        assert x[1..] == OnePass(s[1..], values, n);
        assert pat[j..][1..] <= x[1..];
        TailWasThere(s[1..], values, n, j + 1);
        assert pat[j..] == [pat[j]] + pat[j + 1..];
      }
    }
  }

  lemma PrefixesAgree(a: string, b: string, c: string)
    requires c <= a + b
    ensures Agree(a, c)
  {
  }

  /** A value is passed over by the replacement of a placeholder it is safe for. */
  lemma {:induction false} ValuePassedOver(v: string, i: nat, rest: string, pat: string, value: string)
    requires pat != "" && Safe(v, pat) && i <= |v|
    ensures ReplaceAll(v[i..] + rest, pat, value) == v[i..] + ReplaceAll(rest, pat, value)
    decreases |v| - i
  {
    if i == |v| {
      assert v[i..] + rest == rest;
    } else {
      var s := v[i..] + rest;
      var u := v[i..];
      assert !Agree(u, pat);
      if pat <= s { PrefixesAgree(u, rest, pat); }
      assert s[1..] == v[i + 1..] + rest;
      ValuePassedOver(v, i + 1, rest, pat, value);
      assert v[i..] == [v[i]] + v[i + 1..];
    }
  }

  lemma NoBraceNoMatch(s: string, n: nat)
    requires n <= 7 && s != "" && s[0] != '{'
    ensures Match(s, n) == 7
  {
    assert forall k :: 0 <= k < 7 ==> Placeholder(k)[0] == '{';
  }

  /** Text without an opening brace is copied. */
  lemma {:induction false} LiteralsCopied(p: string, r: string, values: seq<string>, n: nat)
    requires n <= 7 == |values| && '{' !in p
    ensures OnePass(p + r, values, n) == p + OnePass(r, values, n)
    decreases |p|
  {
    if p == "" {
      assert p + r == r;
    } else {
      var s, rest := p + r, p[1..];
      assert p[0] in p && s[1..] == rest + r;
      NoBraceNoMatch(s, n);
      LiteralsCopied(rest, r, values, n);
      Regroup([p[0]], rest, OnePass(r, values, n));
      assert p == [p[0]] + rest;
    }
  }

  lemma HeadAside(pre: string, r: string)
    requires pre != "" && pre[0] == '{'
    ensures pre + r == "{" + (pre[1..] + r)
  {
  }

  /** A placeholder not among the first n is copied through one pass. */
  lemma PlaceholderCopied(s: string, values: seq<string>, n: nat)
    requires n < 7 == |values| && Placeholder(n) <= s
    ensures OnePass(s, values, n) == Placeholder(n) + OnePass(s[4..], values, n)
  {
    if Match(s, n) < 7 { OneMatch(s, Match(s, n), n); }
    var inner, o := Placeholder(n)[1..], OnePass(s[4..], values, n);
    assert s[1..] == inner + s[4..];
    LiteralsCopied(inner, s[4..], values, n);
    HeadAside(Placeholder(n), o);
  }

  /** One more replacement after one pass is one pass with one more placeholder. */
  lemma {:induction false} OneMore(s: string, values: seq<string>, n: nat)
    requires n < 7 == |values| && SafeBelow(values, n)
    ensures ReplaceAll(OnePass(s, values, n), Placeholder(n), values[n]) == OnePass(s, values, n + 1)
    decreases |s|
  {
    var pat := Placeholder(n);
    if s != "" {
      var k := Match(s, n);
      if pat <= s {
        PlaceholderCopied(s, values, n);
        OneMore(s[4..], values, n);
        var x := OnePass(s, values, n);
        assert x[4..] == OnePass(s[4..], values, n);
      } else if k < 7 {
        OneMore(s[4..], values, n);
        ValuePassedOver(values[k], 0, OnePass(s[4..], values, n), pat, values[n]);
        assert values[k][0..] == values[k];
      } else {
        OneMore(s[1..], values, n);
        var x := OnePass(s, values, n);
        assert x[1..] == OnePass(s[1..], values, n);
        assert pat == [pat[0]] + pat[1..] && s == [s[0]] + s[1..];
        assert pat <= x ==> pat[1..] <= x[1..];
        if pat[1..] <= x[1..] { TailWasThere(s[1..], values, n, 1); }
        assert !(pat <= x);
      }
    }
  }

  /** The n-th value cannot make an earlier value part of a placeholder, or is no change at all. */
  ghost predicate SafeStep(values: seq<string>, n: nat)
    requires n < 7 == |values|
  {
    SafeBelow(values, n) || values[n] == Placeholder(n)
  }

  ghost predicate AllSafe(values: seq<string>)
    requires |values| == 7
  {
    forall n :: 0 <= n < 7 ==> SafeStep(values, n)
  }

  lemma {:induction false} SequentialIsOnePass(s: string, values: seq<string>, n: nat)
    requires n <= 7 == |values| && AllSafe(values)
    ensures Sequential(s, values, n) == OnePass(s, values, n)
    decreases n
  {
    if n == 0 {
      NothingToReplace(s, values);
    } else {
      SequentialIsOnePass(s, values, n - 1);
      assert SafeStep(values, n - 1);
      if SafeBelow(values, n - 1) {
        OneMore(s, values, n - 1);
      } else {
        ReplaceSame(OnePass(s, values, n - 1), Placeholder(n - 1));
        OneMoreSame(s, values, n - 1);
      }
    }
  }

  lemma {:induction false} NothingToReplace(s: string, values: seq<string>)
    requires |values| == 7
    ensures OnePass(s, values, 0) == s
  {
    if s != "" { NothingToReplace(s[1..], values); }
  }

  /** Replacing something by itself changes nothing. */
  lemma {:induction false} ReplaceSame(s: string, pat: string)
    requires pat != ""
    ensures ReplaceAll(s, pat, pat) == s
    decreases |s|
  {
    if s != "" {
      if pat <= s {
        ReplaceSame(s[|pat|..], pat);
        assert s == pat + s[|pat|..];
      } else {
        ReplaceSame(s[1..], pat);
      }
    }
  }

  lemma {:induction false} OneMoreSame(s: string, values: seq<string>, n: nat)
    requires n < 7 == |values| && values[n] == Placeholder(n)
    ensures OnePass(s, values, n + 1) == OnePass(s, values, n)
    decreases |s|
  {
    if s != "" {
      var k := Match(s, n);
      if Placeholder(n) <= s {
        PlaceholderCopied(s, values, n);
        OneMoreSame(s[4..], values, n);
      } else if k < 7 {
        OneMoreSame(s[4..], values, n);
      } else {
        OneMoreSame(s[1..], values, n);
      }
    }
  }

  // ----- One pass over joined texts -----

  /** A brace at the start of r keeps every placeholder on one side of the joint. */
  predicate CleanCut(r: string) {
    r == "" || r[0] == '{'
  }

  lemma NoStraddle(a: string, r: string, k: nat)
    requires CleanCut(r) && k < 7 && a != ""
    ensures Placeholder(k) <= a + r <==> Placeholder(k) <= a
  {
    assert |a| < 4 ==> Placeholder(k)[|a|] != '{';
    assert r != "" ==> (a + r)[|a|] == '{';
  }

  lemma SameMatch(a: string, r: string)
    requires CleanCut(r) && a != ""
    ensures Match(a + r, 7) == Match(a, 7)
  {
    forall k: nat | k < 7 ensures Placeholder(k) <= a + r <==> Placeholder(k) <= a {
      NoStraddle(a, r, k);
    }
    var j, k := Match(a + r, 7), Match(a, 7);
    if j < 7 && k < 7 { OneMatch(a, j, k); }
  }

  lemma {:induction false} OnePassSplits(a: string, r: string, values: seq<string>)
    requires CleanCut(r) && |values| == 7
    ensures OnePass(a + r, values, 7) == OnePass(a, values, 7) + OnePass(r, values, 7)
    decreases |a|
  {
    if a == "" {
      assert a + r == r;
    } else {
      SameMatch(a, r);
      var k, o := Match(a, 7), OnePass(r, values, 7);
      if k < 7 {
        assert (a + r)[4..] == a[4..] + r;
        OnePassSplits(a[4..], r, values);
        Regroup(values[k], OnePass(a[4..], values, 7), o);
      } else {
        assert (a + r)[1..] == a[1..] + r;
        OnePassSplits(a[1..], r, values);
        Regroup([a[0]], OnePass(a[1..], values, 7), o);
      }
    }
  }

  lemma OnePassAtPlaceholder(k: nat, b: string, values: seq<string>)
    requires k < 7 == |values|
    ensures OnePass(Placeholder(k) + b, values, 7) == values[k] + OnePass(b, values, 7)
  {
    var s := Placeholder(k) + b;
    OneMatch(s, Match(s, 7), k);
    assert s[4..] == b;
  }
}

/** The exported ToUpperCamel, which also writes abbreviations in capitals, against ToUnderScore. */
module ExportedCamel {
  import opened Common
  import opened Camel

  /** The abbreviation, the first in the list, whose word form s starts with. */
  function FirstWord(s: string, list: seq<string>): (m: string)
    ensures m != "" ==> m in list && AsWord(m) <= s
  {
    if list == [] then ""
    else if list[0] != "" && AsWord(list[0]) <= s then list[0]
    else FirstWord(s, list[1..])
  }

  /** The replacer in the other direction. */
  function ToAbbreviations(s: string, list: seq<string>): (r: string)
    ensures |r| == |s|
  {
    if s == "" then ""
    else
      var m := FirstWord(s, list);
      if m != "" then m + ToAbbreviations(s[|m|..], list) else [s[0]] + ToAbbreviations(s[1..], list)
  }

  function WordsToAbbreviations(s: string): string {
    ToAbbreviations(s, INITIALISMS)
  }

  function ExportedUpperCamel(s: string): string {
    WordsToAbbreviations(UpperCamel(s))
  }

  /** Converting to underscore case and back changes nothing. */
  predicate Stable(u: string) {
    ExportedUpperCamel(UnderScore(u)) == u
  }

  // ----- The abbreviations -----

  /** The abbreviations that start with two letters, in any case. */
  function Starting(a: char, b: char): seq<string> {
    if a == 'a' then (if b == 's' then ["ASCII"] else if b == 'c' then ["ACL"] else if b == 'p' then ["API"] else [])
    else if a == 'c' then (if b == 'p' then ["CPU"] else if b == 's' then ["CSS"] else [])
    else if a == 'd' then (if b == 'n' then ["DNS"] else [])
    else if a == 'e' then (if b == 'o' then ["EOF"] else [])
    else if a == 'h' then (if b == 't' then ["HTML", "HTTP"] else [])
    else if a == 'i' then (if b == 'd' then ["ID"] else if b == 'p' then ["IP"] else [])
    else if a == 'j' then (if b == 's' then ["JSON"] else [])
    else if a == 'l' then (if b == 'h' then ["LHS"] else [])
    else if a == 'm' then (if b == 'y' then ["MySQL"] else [])
    else if a == 'q' then (if b == 'p' then ["QPS"] else [])
    else if a == 'r' then (if b == 'a' then ["RAM"] else if b == 'h' then ["RHS"] else if b == 'p' then ["RPC"] else [])
    else if a == 's' then (if b == 'm' then ["SMTP"] else if b == 'l' then ["SLA"] else if b == 's' then ["SSH"] else [])
    else if a == 't' then (if b == 'c' then ["TCP"] else if b == 'l' then ["TLS"] else if b == 't' then ["TTL"] else [])
    else StartingLate(a, b)
  }

  function StartingLate(a: char, b: char): seq<string> {
    if a == 'u' then
      if b == 'u' then ["UUID"] else if b == 't' then ["UTF8"] else if b == 'i' then ["UID", "UI"]
      else if b == 'r' then ["URI", "URL"] else if b == 'd' then ["UDP"] else []
    else if a == 'v' then (if b == 'm' then ["VM"] else [])
    else if a == 'x' then (if b == 's' then ["XSRF", "XSS"] else if b == 'm' then ["XML"] else [])
    else if a == 'y' then (if b == 'a' then ["YAML"] else [])
    else []
  }

  predicate Capitalised(m: string) {
    |m| >= 2 && IsUpper(m[0])
  }

  ghost predicate Entry(m: string) {
    && Capitalised(m) && (IsUpper(m[1]) || m == "MySQL") && !(m[0] == 'S' && m[1] == 'Q')
    && m[0] != 'N' && (m[0] == 'D' ==> m == "DNS")
  }

  ghost predicate Listed(m: string) {
    |m| >= 2 && m in Starting(ToLower(m[0]), ToLower(m[1]))
  }

  lemma Entries(m: string)
    requires m in INITIALISMS
    ensures Entry(m) && Listed(m)
  {
    var k :| 0 <= k < |INITIALISMS| && INITIALISMS[k] == m;
    if k < 12 { FirstEntries(k); } else if k < 24 { MiddleEntries(k); } else { LastEntries(k); }
  }

  lemma FirstEntries(k: nat)
    requires k < 12
    ensures Entry(INITIALISMS[k]) && Listed(INITIALISMS[k])
  {
  }

  lemma MiddleEntries(k: nat)
    requires 12 <= k < 24
    ensures Entry(INITIALISMS[k]) && Listed(INITIALISMS[k])
  {
  }

  lemma LastEntries(k: nat)
    requires 24 <= k < 36
    ensures Entry(INITIALISMS[k]) && Listed(INITIALISMS[k])
  {
  }

  /** The only abbreviation that extends another is UID. */
  lemma OnlyUiExtends(m: string, n: string)
    requires m in INITIALISMS && n in INITIALISMS && Lower(m) <= Lower(n)
    ensures m == n || (m == "UI" && n == "UID")
  {
    Entries(m);
    Entries(n);
    assert Lower(m)[0] == Lower(n)[0] && Lower(m)[1] == Lower(n)[1];
    SameStart(m, n, ToLower(m[0]), ToLower(m[1]));
  }

  lemma SameStart(m: string, n: string, a: char, b: char)
    requires m in Starting(a, b) && n in Starting(a, b) && Lower(m) <= Lower(n)
    ensures m == n || (m == "UI" && n == "UID")
  {
    assert |m| >= 3 && |n| >= 3 ==> Lower(m)[2] == Lower(n)[2];
  }

  /** m is written at the start of n, in any case. */
  ghost predicate StartOf(m: string, n: string) {
    Lower(m) <= Lower(n)
  }

  /** What the replacers need to know of their list. */
  ghost predicate AllCapitalised(list: seq<string>) {
    forall m :: m in list ==> Capitalised(m)
  }

  ghost predicate Initialisms(list: seq<string>) {
    && AllCapitalised(list)
    && (forall m :: m in list ==> Entry(m))
    && (forall m, n :: m in list && n in list && StartOf(m, n) ==> m == n || (m == "UI" && n == "UID"))
    && UidComesFirst(list)
  }

  ghost predicate UidComesFirst(list: seq<string>) {
    "UI" in list && "DNS" in list && |list| > 13 && list[13] == "UID" && forall j :: 0 <= j < 14 ==> list[j] != "UI"
  }

  lemma UidInitialisms()
    ensures UidComesFirst(INITIALISMS)
  {
    assert INITIALISMS[32] == "UI" && INITIALISMS[20] == "DNS" && INITIALISMS[13] == "UID";
  }

  lemma InitialismsHold()
    ensures Initialisms(INITIALISMS)
  {
    UidInitialisms();
    forall m | m in INITIALISMS ensures Entry(m) { Entries(m); }
    forall m, n | m in INITIALISMS && n in INITIALISMS && StartOf(m, n)
      ensures m == n || (m == "UI" && n == "UID")
    {
      OnlyUiExtends(m, n);
    }
  }

  /** A capital and then none. */
  lemma WordShape(m: string)
    requires Capitalised(m)
    ensures m != "" && AsWord(m)[0] == m[0] && IsUpper(m[0])
    ensures forall i :: 1 <= i < |m| ==> !IsUpper(AsWord(m)[i])
    ensures Lower(AsWord(m)) == Lower(m)
  {
    LetterCases(m[0]);
  }

  // ----- Which abbreviation the replacers find -----

  lemma {:induction false} FirstMatchFinds(s: string, list: seq<string>, k: nat) returns (j: nat)
    requires k < |list| && list[k] <= s && list[k] != ""
    ensures j <= k && FirstMatch(s, list) == list[j]
    decreases k
  {
    if list[0] <= s {
      j := 0;
    } else {
      j := FirstMatchFinds(s, list[1..], k - 1);
      j := j + 1;
    }
  }

  lemma {:induction false} FirstWordFinds(s: string, list: seq<string>, k: nat) returns (j: nat)
    requires k < |list| && list[k] != "" && AsWord(list[k]) <= s
    ensures j <= k && FirstWord(s, list) == list[j]
    decreases k
  {
    if list[0] != "" && AsWord(list[0]) <= s {
      j := 0;
    } else {
      j := FirstWordFinds(s, list[1..], k - 1);
      j := j + 1;
    }
  }

  lemma Related(m: string, n: string, s: string)
    requires m <= s && n <= s
    ensures StartOf(m, n) || StartOf(n, m)
  {
    assert forall i :: 0 <= i < |m| ==> m[i] == s[i];
    assert forall i :: 0 <= i < |n| ==> n[i] == s[i];
    if |m| <= |n| { assert m == n[..|m|]; } else { assert n == m[..|n|]; }
  }

  /** Where an abbreviation stands, the first one that fits is that one, or UID over UI. */
  lemma MatchAt(m: string, x: string, list: seq<string>) returns (f: string)
    requires Initialisms(list) && m in list
    ensures f == FirstMatch(m + x, list) && f in list && f <= m + x
    ensures f == m || (m == "UI" && f == "UID" && x != "" && x[0] == 'D')
  {
    var k :| 0 <= k < |list| && list[k] == m && (m == "UID" ==> k == 13);
    var j := FirstMatchFinds(m + x, list, k);
    f := list[j];
    Related(m, f, m + x);
    if f == "UID" && m == "UI" { ThirdLetter(f, m, x); }
  }

  lemma ThirdLetter(f: string, m: string, x: string)
    requires f <= m + x && |f| == 3 && |m| == 2
    ensures x != "" && x[0] == f[2]
  {
  }

  lemma RelatedWords(m: string, n: string, s: string)
    requires Entry(m) && Entry(n) && AsWord(m) <= s && AsWord(n) <= s
    ensures StartOf(m, n) || StartOf(n, m)
  {
    WordShape(m);
    WordShape(n);
    Related(AsWord(m), AsWord(n), s);
  }

  lemma WordAt(m: string, x: string, list: seq<string>) returns (f: string)
    requires Initialisms(list) && m in list && m != ""
    ensures f == FirstWord(AsWord(m) + x, list) && f in list
    ensures f == m || (m == "UI" && f == "UID" && x != "" && x[0] == 'd')
  {
    var s := AsWord(m) + x;
    var k :| 0 <= k < |list| && list[k] == m && (m == "UID" ==> k == 13);
    var j := FirstWordFinds(s, list, k);
    f := list[j];
    RelatedWords(m, f, s);
    if f == "UID" && m == "UI" { ThirdLetter(AsWord(f), AsWord(m), x); }
  }

  /** Text that starts with the word of an abbreviation has a first word. */
  lemma HasWord(m: string, c: string, list: seq<string>)
    requires Initialisms(list) && m in list && m != "" && AsWord(m) <= c
    ensures FirstWord(c, list) != ""
  {
    assert c == AsWord(m) + c[|m|..];
    var f := WordAt(m, c[|m|..], list);
    assert Entry(f);
  }

  // ----- How the replacers work on a text -----

  /** An abbreviation at the front becomes its word, and a word its abbreviation, unless UI is the
      start of UID there; where none stands at the front, the first letter is copied. */
  lemma ReplacersAtFront(m: string, x: string, list: seq<string>)
    requires Initialisms(list) && m in list
    ensures m != "UI" || x == "" || x[0] != 'D' ==> ToWords(m + x, list) == AsWord(m) + ToWords(x, list)
    ensures m != "UI" || x == "" || x[0] != 'd' ==> ToAbbreviations(AsWord(m) + x, list) == m + ToAbbreviations(x, list)
  {
    assert Entry(m);
    if m != "UI" || x == "" || x[0] != 'D' {
      var f := MatchAt(m, x, list);
      assert (m + x)[|m|..] == x;
    }
    if m != "UI" || x == "" || x[0] != 'd' {
      var f := WordAt(m, x, list);
      assert (AsWord(m) + x)[|m|..] == x;
    }
  }

  lemma CopiedAtFront(c: char, x: string, list: seq<string>)
    ensures (forall m :: m in list ==> !(m <= [c] + x)) ==> ToWords([c] + x, list) == [c] + ToWords(x, list)
    ensures (forall m :: m in list && m != "" ==> !(AsWord(m) <= [c] + x)) ==>
      ToAbbreviations([c] + x, list) == [c] + ToAbbreviations(x, list)
  {
    var s := [c] + x;
    assert s[1..] == x;
    assert FirstMatch(s, list) != "" ==> FirstMatch(s, list) in list && FirstMatch(s, list) <= s;
    assert FirstWord(s, list) != "" ==> FirstWord(s, list) in list && AsWord(FirstWord(s, list)) <= s;
  }

  /** How far a replacer goes at once. */
  function Stride(m: string): nat {
    if m == "" then 1 else |m|
  }

  lemma Dropped(x: string, n: nat, k: nat)
    requires n <= k <= |x|
    ensures x[n..][k - n..] == x[k..] && (k < |x| ==> x[n..][k - n] == x[k])
  {
  }

  lemma WordsRest(u: string, n: nat, list: seq<string>)
    requires u != "" && n == Stride(FirstMatch(u, list))
    ensures 0 < n <= |u| && ToWords(u, list)[n..] == ToWords(u[n..], list)
  {
    var m := FirstMatch(u, list);
    var head := if m != "" then AsWord(m) else [u[0]];
    assert ToWords(u, list) == head + ToWords(u[n..], list);
  }

  lemma AbbreviationsRest(t: string, n: nat, list: seq<string>)
    requires t != "" && n == Stride(FirstWord(t, list))
    ensures 0 < n <= |t| && ToAbbreviations(t, list)[n..] == ToAbbreviations(t[n..], list)
  {
    var m := FirstWord(t, list);
    var head := if m != "" then m else [t[0]];
    assert ToAbbreviations(t, list) == head + ToAbbreviations(t[n..], list);
  }

  /** A capital left by the replacer to words stands where the replacer stopped. */
  lemma StoppedAtCapital(u: string, p: nat, list: seq<string>)
    requires AllCapitalised(list) && p < |u| && IsUpper(ToWords(u, list)[p])
    ensures ToWords(u, list)[p..] == ToWords(u[p..], list) && u[p] == ToWords(u, list)[p]
  {
    assert u == u[..p] + u[p..];
    StoppedBetween(u[..p], u[p..], u, list);
  }

  lemma {:induction false} StoppedBetween(a: string, b: string, u: string, list: seq<string>)
    requires AllCapitalised(list) && u == a + b && b != "" && IsUpper(ToWords(u, list)[|a|])
    ensures ToWords(u, list)[|a|..] == ToWords(b, list) && b[0] == ToWords(u, list)[|a|]
    decreases |a|
  {
    if a == "" {
      assert u == b;
      FirstLetterStays(b, list);
    } else {
      var n := Stride(FirstMatch(u, list));
      NoCapitalInside(u, |a|, list);
      CutFront(a, b, u, n);
      WordsFrom(u, ToWords(u, list), a[n..] + b, n, |a|, list);
      StoppedBetween(a[n..], b, a[n..] + b, list);
    }
  }

  lemma CutFront(a: string, b: string, u: string, n: nat)
    requires u == a + b && n <= |a|
    ensures u[n..] == a[n..] + b && |a[n..]| == |a| - n
  {
  }

  /** What the replacer makes of a text from index p on, if it steps over the first n letters. */
  lemma WordsFrom(u: string, r: string, rest: string, n: nat, p: nat, list: seq<string>)
    requires u != "" && r == ToWords(u, list) && n == Stride(FirstMatch(u, list)) <= p < |u| && rest == u[n..]
    ensures |rest| == |u| - n && r[p] == ToWords(rest, list)[p - n] && r[p..] == ToWords(rest, list)[p - n..]
  {
    WordsRest(u, n, list);
    Dropped(r, n, p);
  }

  lemma NoCapitalInside(u: string, p: nat, list: seq<string>)
    requires AllCapitalised(list) && 0 < p < |u| && IsUpper(ToWords(u, list)[p])
    ensures p >= Stride(FirstMatch(u, list))
  {
    var m := FirstMatch(u, list);
    if m != "" {
      WordShape(m);
      if p < |m| { HeadAt(AsWord(m), ToWords(u[|m|..], list), p); }
    }
  }

  lemma HeadAt(head: string, rest: string, p: nat)
    requires p < |head|
    ensures (head + rest)[p] == head[p]
  {
  }

  lemma FirstLetterStays(c: string, list: seq<string>)
    requires AllCapitalised(list) && c != ""
    ensures ToAbbreviations(c, list)[0] == c[0] && ToWords(c, list)[0] == c[0]
  {
    var m, f := FirstWord(c, list), FirstMatch(c, list);
    if m != "" { WordShape(m); }
    if f != "" { WordShape(f); }
  }

  /** A letter the other replacer changes lies in a word after its first letter. */
  lemma {:induction false} ChangedInWord(t: string, k: nat, list: seq<string>) returns (p: nat, m: string)
    requires AllCapitalised(list) && k < |t| && ToAbbreviations(t, list)[k] != t[k]
    ensures m in list && m != "" && p < k < p + |m| <= |t|
    ensures AsWord(m) <= t[p..] && m <= ToAbbreviations(t, list)[p..]
    decreases |t|, 1
  {
    m := FirstWord(t, list);
    FirstLetterStays(t, list);
    if m != "" && k < |m| {
      p := 0;
      StartsWithFirst(t, m, list);
    } else {
      p, m := ChangedLater(t, k, Stride(m), list);
    }
  }

  lemma ChangedLater(t: string, k: nat, n: nat, list: seq<string>) returns (p: nat, m: string)
    requires AllCapitalised(list) && t != "" && n == Stride(FirstWord(t, list)) <= k < |t|
    requires ToAbbreviations(t, list)[k] != t[k]
    ensures m in list && m != "" && p < k < p + |m| <= |t|
    ensures AsWord(m) <= t[p..] && m <= ToAbbreviations(t, list)[p..]
    decreases |t|, 0
  {
    var u := ToAbbreviations(t, list);
    AbbreviationsRest(t, n, list);
    Dropped(t, n, k);
    Dropped(u, n, k);
    var q;
    q, m := ChangedInWord(t[n..], k - n, list);
    p := q + n;
    Dropped(t, n, p);
    Dropped(u, n, p);
  }

  lemma StartsWithFirst(t: string, m: string, list: seq<string>)
    requires m != "" && m == FirstWord(t, list)
    ensures |m| <= |t| && AsWord(m) <= t[0..] && m <= ToAbbreviations(t, list)[0..]
  {
    assert t[0..] == t && ToAbbreviations(t, list)[0..] == ToAbbreviations(t, list);
  }

  /** An abbreviation at which the replacer stopped has become a word, with a capital and then none. */
  lemma AbbreviationWasReplaced(u: string, p: nat, m: string, list: seq<string>)
    requires Initialisms(list) && p < |u| && IsUpper(ToWords(u, list)[p]) && m in list && m <= u[p..]
    ensures forall k :: p < k < p + |m| ==> k < |u| && !IsUpper(ToWords(u, list)[k])
  {
    StoppedAtCapital(u, p, list);
    var x := u[p..];
    assert x == m + x[|m|..];
    var f := MatchAt(m, x[|m|..], list);
    assert Entry(m) && Entry(f);
    WordShape(f);
    var r := ToWords(u, list);
    forall k | p < k < p + |m| ensures k < |u| && !IsUpper(r[k]) {
      assert r[k] == r[p..][k - p] == AsWord(f)[k - p];
    }
  }

  // ----- The round trip of any text of letters -----

  lemma CapitalWasThere(r: string, t: string, p: nat)
    requires NoUnderscore(r) && |t| == |r| && p < |r| && IsUpper(t[p]) && !IsLower(r[0]) && t[0] == ToUpper(r[0])
    requires forall i :: 1 <= i < |r| ==> RecasedTo(r, i, t[i])
    ensures IsUpper(r[p])
  {
    LetterCases(r[p]);
    assert p > 0 ==> RecasedTo(r, p, t[p]);
  }

  /** t is what two neighbouring capitals of r leave after a round trip; finding abbreviations in it
      does not bring the second one back. */
  lemma NeighboursAreLost(u: string, r: string, t: string, i: nat, list: seq<string>)
    requires Initialisms(list) && r == ToWords(u, list) && NoUnderscore(r) && u != "" && !IsLower(r[0])
    requires |t| == |r| && t[0] == ToUpper(r[0]) && forall k :: 1 <= k < |r| ==> RecasedTo(r, k, t[k])
    requires Adjacent(r, i)
    ensures ToAbbreviations(t, list) != u
  {
    StoppedAtCapital(u, i + 1, list);
    assert RecasedTo(r, i + 1, t[i + 1]);
    LetterCases(r[i + 1]);
    if ToAbbreviations(t, list) == u {
      var p, m := ChangedInWord(t, i + 1, list);
      WordShape(m);
      assert t[p] == t[p..][0] == m[0];
      CapitalWasThere(r, t, p);
      AbbreviationWasReplaced(u, p, m, list);
      assert false;
    }
  }

  // ----- When writing words as abbreviations gives a text back -----

  ghost predicate WordAtIndex(m: string, r: string, i: nat) {
    m != "" && i <= |r| && AsWord(m) <= r[i..]
  }

  /** Every abbreviation that can be read in r, the text with its abbreviations written as words,
      stands in capitals in u. */
  ghost predicate AllInCapitals(u: string, r: string, list: seq<string>)
    requires |u| == |r|
  {
    forall m, i: nat :: m in list && WordAtIndex(m, r, i) ==> m <= u[i..]
  }

  /** A capital is where the replacer to abbreviations stops too. */
  lemma StopsAtCapital(r: string, i: nat, list: seq<string>)
    requires AllCapitalised(list) && i < |r| && IsUpper(r[i])
    ensures ToAbbreviations(r, list)[i..] == ToAbbreviations(r[i..], list)
  {
    assert r == r[..i] + r[i..];
    StopsBetween(r[..i], r[i..], r, list);
  }

  lemma {:induction false} StopsBetween(a: string, b: string, r: string, list: seq<string>)
    requires AllCapitalised(list) && r == a + b && b != "" && IsUpper(b[0])
    ensures ToAbbreviations(r, list)[|a|..] == ToAbbreviations(b, list)
    decreases |a|
  {
    if a == "" {
      assert r == b;
    } else {
      var n := Stride(FirstWord(r, list));
      NoCapitalInWord(r, |a|, list);
      CutFront(a, b, r, n);
      AbbreviationsFrom(r, ToAbbreviations(r, list), a[n..] + b, n, |a|, list);
      StopsBetween(a[n..], b, a[n..] + b, list);
    }
  }

  /** What the replacer makes of a text from index i on, if it steps over the first n letters. */
  lemma AbbreviationsFrom(r: string, u: string, rest: string, n: nat, i: nat, list: seq<string>)
    requires r != "" && u == ToAbbreviations(r, list) && n == Stride(FirstWord(r, list)) <= i < |r| && rest == r[n..]
    ensures u[i..] == ToAbbreviations(rest, list)[i - n..]
  {
    AbbreviationsRest(r, n, list);
    Dropped(u, n, i);
  }

  lemma NoCapitalInWord(r: string, i: nat, list: seq<string>)
    requires AllCapitalised(list) && 0 < i < |r| && IsUpper(r[i])
    ensures i >= Stride(FirstWord(r, list))
  {
    var m := FirstWord(r, list);
    if m != "" { WordShape(m); }
  }

  lemma ReadBack(u: string, r: string, m: string, i: nat, list: seq<string>)
    requires Initialisms(list) && |u| == |r| && ToAbbreviations(r, list) == u
    requires m in list && WordAtIndex(m, r, i)
    ensures m <= u[i..]
  {
    WordShape(m);
    assert r[i] == r[i..][0];
    StopsAtCapital(r, i, list);
    ReadFirst(r[i..], m, list);
  }

  lemma ReadFirst(x: string, m: string, list: seq<string>)
    requires Initialisms(list) && m in list && m != "" && AsWord(m) <= x
    ensures m <= ToAbbreviations(x, list)
  {
    var rest := x[|m|..];
    assert x == AsWord(m) + rest;
    var f := WordAt(m, rest, list);
    assert Entry(f);
    assert m <= f <= ToAbbreviations(x, list);
  }

  lemma FirstIsLongest(x: string, m: string, list: seq<string>)
    requires Initialisms(list) && m in list && m != "" && AsWord(m) <= x
    ensures FirstWord(x, list) != "" && |m| <= |FirstWord(x, list)|
  {
    assert x == AsWord(m) + x[|m|..];
    var f := WordAt(m, x[|m|..], list);
    assert Entry(f);
  }

  /** No word begins behind the start of the first step and before its end. */
  lemma NoneInside(x: string, m: string, i: nat, list: seq<string>)
    requires Initialisms(list) && x != "" && m in list && WordAtIndex(m, x, i)
    ensures i < Stride(FirstWord(x, list)) ==> i == 0 && FirstWord(x, list) != "" && |m| <= Stride(FirstWord(x, list))
  {
    var f := FirstWord(x, list);
    WordShape(m);
    if f != "" { WordShape(f); }
    assert x[i] == x[i..][0] == m[0];
    if i == 0 {
      assert x[0..] == x;
      FirstIsLongest(x, m, list);
    }
  }

  /** Letters in which u differs from x lie in words of x, after the first letter. */
  ghost predicate Covered(u: string, x: string, list: seq<string>)
    requires |u| == |x|
  {
    forall k: nat :: k < |x| && x[k] != u[k] ==> CoveredAt(x, k, list)
  }

  ghost predicate CoveredAt(x: string, k: nat, list: seq<string>) {
    exists m, i: nat :: m in list && WordAtIndex(m, x, i) && i < k < i + |m|
  }

  lemma Shifted(m: string, x: string, n: nat, i: nat)
    requires n <= i <= |x|
    ensures WordAtIndex(m, x[n..], i - n) <==> WordAtIndex(m, x, i)
  {
    assert x[n..][i - n..] == x[i..];
  }

  lemma CoveredBehind(u: string, x: string, n: nat, list: seq<string>)
    requires Initialisms(list) && |u| == |x| && x != "" && Covered(u, x, list) && n == Stride(FirstWord(x, list)) <= |x|
    ensures Covered(u[n..], x[n..], list)
  {
    forall k: nat | k < |x[n..]| && x[n..][k] != u[n..][k] ensures CoveredAt(x[n..], k, list) {
      assert CoveredAt(x, n + k, list);
      var m, i: nat :| m in list && WordAtIndex(m, x, i) && i < n + k < i + |m|;
      NoneInside(x, m, i, list);
      assert i >= n;
      Shifted(m, x, n, i);
    }
  }

  lemma CapitalsBehind(u: string, x: string, n: nat, list: seq<string>)
    requires |u| == |x| && n <= |x| && AllInCapitals(u, x, list)
    ensures AllInCapitals(u[n..], x[n..], list)
  {
    forall m, i: nat | m in list && WordAtIndex(m, x[n..], i) ensures m <= u[n..][i..] {
      Shifted(m, x, n, n + i);
      assert u[n..][i..] == u[n + i..];
    }
  }

  lemma FirstUnchanged(u: string, x: string, list: seq<string>)
    requires Initialisms(list) && |u| == |x| && x != "" && AllInCapitals(u, x, list) && Covered(u, x, list)
    ensures var f := FirstWord(x, list); if f != "" then f <= u else x[0] == u[0]
  {
    var f := FirstWord(x, list);
    if f != "" {
      assert x[0..] == x && u[0..] == u;
      assert f in list && WordAtIndex(f, x, 0);
    } else {
      assert !CoveredAt(x, 0, list);
    }
  }

  lemma {:induction false} Spelled(u: string, x: string, list: seq<string>)
    requires Initialisms(list) && |u| == |x| && AllInCapitals(u, x, list) && Covered(u, x, list)
    ensures ToAbbreviations(x, list) == u
    decreases |x|
  {
    if x != "" {
      var n := Stride(FirstWord(x, list));
      CoveredBehind(u, x, n, list);
      CapitalsBehind(u, x, n, list);
      Spelled(u[n..], x[n..], list);
      FirstUnchanged(u, x, list);
      SpelledStep(x, u, list);
    }
  }

  lemma SpelledStep(x: string, u: string, list: seq<string>)
    requires |u| == |x| && x != ""
    requires var f := FirstWord(x, list); if f != "" then f <= u else x[0] == u[0]
    requires var n := Stride(FirstWord(x, list)); n <= |x| && ToAbbreviations(x[n..], list) == u[n..]
    ensures ToAbbreviations(x, list) == u
  {
    var f := FirstWord(x, list);
    assert u == (if f != "" then f else [x[0]]) + u[Stride(f)..];
  }

  /** A letter the replacer to words changes lies in a word after its first letter. */
  lemma {:induction false} LoweredInWord(u: string, k: nat, list: seq<string>) returns (i: nat, m: string)
    requires AllCapitalised(list) && k < |u| && ToWords(u, list)[k] != u[k]
    ensures m in list && WordAtIndex(m, ToWords(u, list), i) && i < k < i + |m|
    decreases |u|, 1
  {
    m := FirstMatch(u, list);
    FirstLetterStays(u, list);
    if m != "" && k < |m| {
      i := 0;
      StartsWithWord(u, m, list);
    } else {
      i, m := LoweredLater(u, k, Stride(m), list);
    }
  }

  lemma LoweredLater(u: string, k: nat, n: nat, list: seq<string>) returns (i: nat, m: string)
    requires AllCapitalised(list) && u != "" && n == Stride(FirstMatch(u, list)) <= k < |u|
    requires ToWords(u, list)[k] != u[k]
    ensures m in list && WordAtIndex(m, ToWords(u, list), i) && i < k < i + |m|
    decreases |u|, 0
  {
    var r := ToWords(u, list);
    WordsRest(u, n, list);
    Dropped(u, n, k);
    Dropped(r, n, k);
    var q;
    q, m := LoweredInWord(u[n..], k - n, list);
    i := q + n;
    Shifted(m, r, n, i);
  }

  lemma StartsWithWord(u: string, m: string, list: seq<string>)
    requires m != "" && m == FirstMatch(u, list)
    ensures WordAtIndex(m, ToWords(u, list), 0)
  {
    assert ToWords(u, list)[0..] == ToWords(u, list);
  }

  lemma SpelledIff(u: string, list: seq<string>)
    requires Initialisms(list)
    ensures ToAbbreviations(ToWords(u, list), list) == u <==> AllInCapitals(u, ToWords(u, list), list)
  {
    var r := ToWords(u, list);
    if AllInCapitals(u, r, list) {
      forall k: nat | k < |r| && r[k] != u[k] ensures CoveredAt(r, k, list) {
        var i, m := LoweredInWord(u, k, list);
      }
      Spelled(u, r, list);
    } else if ToAbbreviations(r, list) == u {
      var m, i: nat :| m in list && WordAtIndex(m, r, i) && !(m <= u[i..]);
      ReadBack(u, r, m, i, list);
    }
  }

  /** Text in upper camel case is stable exactly when, its abbreviations written as words, no
      capital stands right behind another or behind a digit, and every abbreviation that can then be
      read stands in capitals in the text. */
  lemma CamelStableIff(u: string)
    requires NoUnderscore(u) && u != "" && !IsLower(u[0])
    ensures var r := AbbreviationsToWords(u);
      Stable(u) <==> Apart(r) && AllInCapitals(u, r, INITIALISMS)
  {
    var r := AbbreviationsToWords(u);
    ReplacerKeepsLetters(u, INITIALISMS);
    InitialismsHold();
    SpelledIff(u, INITIALISMS);
    if Apart(r) {
      WordsComeBack(r);
    } else {
      var i: nat :| i < |r| && Adjacent(r, i);
      var t := CamelOfUnder(r);
      NeighboursAreLost(u, r, t, i, INITIALISMS);
    }
  }

  // ----- The round trip of separate words -----

  ghost predicate UiDnsAt(c: string, i: nat) {
    i <= |c| && "UiDns" <= c[i..]
  }

  ghost predicate HasUiDns(c: string) {
    exists i: nat :: UiDnsAt(c, i)
  }

  lemma SuffixOfApart(c: string, n: nat)
    requires Apart(c) && n <= |c|
    ensures Apart(c[n..]) && (HasUiDns(c[n..]) ==> HasUiDns(c))
  {
    forall i: nat | i < |c[n..]| ensures !Adjacent(c[n..], i) {
      assert !Adjacent(c, n + i);
    }
    if HasUiDns(c[n..]) {
      var i: nat :| UiDnsAt(c[n..], i);
      assert c[n..][i..] == c[n + i..];
      assert UiDnsAt(c, n + i);
    }
  }

  lemma SecondLetterStays(c: string, list: seq<string>)
    requires Initialisms(list) && |c| >= 2 && FirstWord(c, list) == ""
    ensures ToAbbreviations(c, list)[1] == c[1]
  {
    FirstLetterStays(c[1..], list);
    assert ToAbbreviations(c, list) == [c[0]] + ToAbbreviations(c[1..], list);
  }

  /** Where separate words hold no abbreviation, writing the others in capitals makes none. */
  lemma NoneAppears(c: string, list: seq<string>)
    requires Initialisms(list) && Apart(c) && c != "" && FirstWord(c, list) == ""
    ensures FirstMatch(ToAbbreviations(c, list), list) == ""
  {
    var u := ToAbbreviations(c, list);
    var f := FirstMatch(u, list);
    if f != "" {
      assert Entry(f);
      FirstLetterStays(c, list);
      SecondLetterStays(c, list);
      assert f[0] == u[0] && f[1] == u[1];
      assert !Adjacent(c, 0);
      MySqlSpared(c, list);
    }
  }

  lemma MySqlSpared(c: string, list: seq<string>)
    requires Initialisms(list) && Apart(c) && |c| >= 2 && !IsUpper(c[1]) && FirstWord(c, list) == ""
    ensures !("MySQL" <= ToAbbreviations(c, list))
  {
    var u := ToAbbreviations(c, list);
    var m := FirstWord(c[1..], list);
    if m != "" { WordShape(m); }
    assert u == [c[0]] + ToAbbreviations(c[1..], list);
    if |c| >= 4 {
      var d := c[2..];
      assert c[1..][1..] == d;
      assert u[2] == ToAbbreviations(d, list)[0] && u[3] == ToAbbreviations(d, list)[1];
      assert !Adjacent(c, 2);
      NoAbbreviationStartsSq(d, list);
    }
  }

  lemma NoAbbreviationStartsSq(d: string, list: seq<string>)
    requires Initialisms(list) && |d| >= 2 && !Adjacent(d, 0)
    ensures !(ToAbbreviations(d, list)[0] == 'S' && ToAbbreviations(d, list)[1] == 'Q')
  {
    var g := FirstWord(d, list);
    FirstLetterStays(d, list);
    if g != "" {
      assert Entry(g);
    } else {
      SecondLetterStays(d, list);
    }
  }

  /** r is c, except that the D after some Ui may have become small. */
  ghost predicate Softer(r: string, c: string) {
    |r| == |c| && forall i: nat :: i < |r| && r[i] != c[i] ==> SoftenedAt(r, c, i)
  }

  ghost predicate SoftenedAt(r: string, c: string, i: nat) {
    2 <= i < |r| == |c| && r[i - 2] == c[i - 2] == 'U' && r[i - 1] == c[i - 1] == 'i' && r[i] == 'd' && c[i] == 'D'
  }

  lemma SofterInFront(p: string, q: string, r: string, c: string)
    requires Softer(r, c) && Softer(p, q)
    ensures Softer(p + r, q + c)
  {
    var s, d := p + r, q + c;
    forall i: nat | i < |s| && s[i] != d[i] ensures SoftenedAt(s, d, i) {
      if i < |p| {
        assert SoftenedAt(p, q, i);
      } else {
        assert SoftenedAt(r, c, i - |p|);
      }
    }
  }

  lemma SofterApart(r: string, c: string)
    requires Softer(r, c) && Apart(c)
    ensures Apart(r)
  {
    forall i: nat | i < |r| ensures !Adjacent(r, i) {
      assert !Adjacent(c, i);
      assert r[i] != c[i] ==> SoftenedAt(r, c, i);
      assert i + 1 < |r| && r[i + 1] != c[i + 1] ==> SoftenedAt(r, c, i + 1);
    }
  }

  /** A word at the start of the softer text is one at the start of the other. */
  lemma SofterWord(r: string, c: string, list: seq<string>)
    requires Initialisms(list) && Softer(r, c) && FirstWord(r, list) != ""
    ensures FirstWord(c, list) != ""
  {
    var m := FirstWord(r, list);
    WordShape(m);
    if "Ui" <= c {
      HasWord("UI", c, list);
    } else {
      forall i: nat | i < |m| ensures AsWord(m)[i] == c[i] {
        SoftenedLate(AsWord(m), r, c, i);
      }
      assert AsWord(m) == c[..|m|];
      HasWord(m, c, list);
    }
  }

  lemma SoftenedLate(w: string, r: string, c: string, i: nat)
    requires Softer(r, c) && w <= r && i < |w| && !("Ui" <= c)
    requires forall k :: 1 <= k < |w| ==> !IsUpper(w[k])
    ensures w[i] == c[i]
  {
    assert w[i] == r[i];
    assert r[i] != c[i] ==> SoftenedAt(r, c, i);
    assert i >= 2 ==> w[i - 2] == r[i - 2];
  }

  lemma WordsOfThree()
    ensures AsWord("UI") == "Ui" && AsWord("UID") == "Uid" && AsWord("DNS") == "Dns"
  {
  }

  lemma ToWordsAt(m: string, x: string, list: seq<string>)
    requires m != "" && FirstMatch(m + x, list) == m
    ensures ToWords(m + x, list) == AsWord(m) + ToWords(x, list)
  {
    assert (m + x)[|m|..] == x;
  }

  lemma ToAbbreviationsAt(m: string, x: string, list: seq<string>)
    requires m != "" && FirstWord(AsWord(m) + x, list) == m
    ensures ToAbbreviations(AsWord(m) + x, list) == m + ToAbbreviations(x, list)
  {
    assert (AsWord(m) + x)[|m|..] == x;
  }

  /** Going to abbreviations and back to words gives r for c, and to abbreviations again the same. */
  ghost predicate BackAndForth(c: string, r: string, list: seq<string>) {
    && r == ToWords(ToAbbreviations(c, list), list)
    && Softer(r, c)
    && ToAbbreviations(r, list) == ToAbbreviations(c, list)
  }

  lemma PlainLetter(c: string, r': string, list: seq<string>)
    requires Initialisms(list) && Apart(c) && c != "" && FirstWord(c, list) == ""
    requires BackAndForth(c[1..], r', list)
    ensures BackAndForth(c, [c[0]] + r', list)
  {
    var r := [c[0]] + r';
    NoneAppears(c, list);
    assert ToAbbreviations(c, list)[1..] == ToAbbreviations(c[1..], list);
    assert c == [c[0]] + c[1..];
    SofterInFront([c[0]], [c[0]], r', c[1..]);
    if FirstWord(r, list) != "" { SofterWord(r, c, list); }
    assert r[1..] == r';
  }

  lemma WholeWord(m: string, rest: string, r': string, list: seq<string>)
    requires Initialisms(list) && m in list && FirstWord(AsWord(m) + rest, list) == m
    requires FirstMatch(m + ToAbbreviations(rest, list), list) == m
    requires BackAndForth(rest, r', list)
    ensures BackAndForth(AsWord(m) + rest, AsWord(m) + r', list)
  {
    var c, r := AsWord(m) + rest, AsWord(m) + r';
    assert Entry(m);
    ToAbbreviationsAt(m, rest, list);
    ToWordsAt(m, ToAbbreviations(rest, list), list);
    SofterInFront(AsWord(m), AsWord(m), r', rest);
    var f := WordAt(m, r', list);
    if f != m {
      NoUidHere(rest, r', list);
      assert false;
    }
    ToAbbreviationsAt(m, r', list);
  }

  lemma NoUidHere(rest: string, r': string, list: seq<string>)
    requires Initialisms(list) && Softer(r', rest) && r' != "" && r'[0] == 'd'
    ensures FirstWord(AsWord("UI") + rest, list) != "UI"
  {
    WordsOfThree();
    assert r'[0] == rest[0] by { assert !SoftenedAt(r', rest, 0); }
    assert AsWord("UI") + rest == AsWord("UID") + rest[1..];
    var f := WordAt("UID", rest[1..], list);
  }

  lemma UidFound(x: string, list: seq<string>)
    requires Initialisms(list)
    ensures ToWords("UID" + x, list) == "Uid" + ToWords(x, list)
  {
    WordsOfThree();
    var f := MatchAt("UID", x, list);
    ToWordsAt("UID", x, list);
  }

  /** UI before a word with D reads as UID, and is written as Uid. */
  lemma MergedUid(y: string, c': string, r': string, list: seq<string>)
    requires Initialisms(list) && FirstWord("D" + c', list) == "" && FirstWord("Ui" + ("D" + c'), list) == "UI"
    requires y == ToAbbreviations(c', list) && BackAndForth(c', r', list)
    ensures ToAbbreviations("UiD" + c', list) == "UID" + y
    ensures BackAndForth("UiD" + c', "Uid" + r', list)
  {
    WordsOfThree();
    MergedUp(c', list);
    UidFound(y, list);
    assert Softer("Uid", "UiD") by { assert SoftenedAt("Uid", "UiD", 2); }
    SofterInFront("Uid", "UiD", r', c');
    var f := WordAt("UID", r', list);
    ToAbbreviationsAt("UID", r', list);
  }

  lemma MergedUp(c': string, list: seq<string>)
    requires FirstWord("D" + c', list) == "" && FirstWord("Ui" + ("D" + c'), list) == "UI"
    ensures ToAbbreviations("UiD" + c', list) == "UID" + ToAbbreviations(c', list)
  {
    WordsOfThree();
    ToAbbreviationsAt("UI", "D" + c', list);
    assert ("D" + c')[1..] == c';
    assert "Ui" + ("D" + c') == "UiD" + c';
    var y := ToAbbreviations(c', list);
    assert ToAbbreviations("D" + c', list) == "D" + y;
    assert "UI" + ("D" + y) == "UID" + y;
  }

  /** If the replacer finds UID where UI was written, a word with D but no abbreviation follows. */
  lemma MergeNeedsD(rest: string, list: seq<string>) returns (c': string)
    requires Initialisms(list) && ToAbbreviations(rest, list) != "" && ToAbbreviations(rest, list)[0] == 'D'
    ensures rest == "D" + c'
    ensures FirstWord(rest, list) == "" || "Dns" <= rest
  {
    FirstLetterStays(rest, list);
    c' := rest[1..];
    var m := FirstWord(rest, list);
    if m != "" {
      WordShape(m);
      WordsOfThree();
    }
  }

  lemma {:induction false} WordsComeBackTogether(c: string, list: seq<string>) returns (r: string)
    requires Initialisms(list) && Apart(c) && !HasUiDns(c)
    ensures BackAndForth(c, r, list)
    decreases |c|
  {
    if c == "" {
      return "";
    }
    var m := FirstWord(c, list);
    SuffixOfApart(c, Stride(m));
    var rest := c[Stride(m)..];
    if m == "" {
      r := WordsComeBackTogether(rest, list);
      PlainLetter(c, r, list);
      return [c[0]] + r;
    }
    assert Entry(m) && c == AsWord(m) + rest;
    var f := MatchAt(m, ToAbbreviations(rest, list), list);
    if f == m {
      r := WordsComeBackTogether(rest, list);
      WholeWord(m, rest, r, list);
      return AsWord(m) + r;
    }
    WordsOfThree();
    var c' := MergeNeedsD(rest, list);
    if "Dns" <= rest {
      UiDnsHere(c, rest);
      assert false;
    }
    SuffixOfApart(c, 3);
    assert c[3..] == c' && c == "UiD" + c';
    r := WordsComeBackTogether(c', list);
    MergedUid(ToAbbreviations(c', list), c', r, list);
    return "Uid" + r;
  }

  lemma UiDnsHere(c: string, rest: string)
    requires c == "Ui" + rest && "Dns" <= rest
    ensures UiDnsAt(c, 0)
  {
    assert rest == "Dns" + rest[3..];
    assert c[0..] == "UiDns" + rest[3..];
  }

  // ----- UI before DNS -----

  lemma UiUp(d: string, list: seq<string>)
    requires Initialisms(list) && d != "" && d[0] == 'D'
    ensures ToAbbreviations("Ui" + d, list) == "UI" + ToAbbreviations(d, list)
  {
    WordsOfThree();
    var f := WordAt("UI", d, list);
    ToAbbreviationsAt("UI", d, list);
  }

  lemma DnsUp(z: string, list: seq<string>)
    requires Initialisms(list)
    ensures ToAbbreviations("Dns" + z, list) == "DNS" + ToAbbreviations(z, list)
  {
    WordsOfThree();
    var f := WordAt("DNS", z, list);
    ToAbbreviationsAt("DNS", z, list);
  }

  /** UIDNS is read as UID and NS: two capitals meet. */
  lemma UiDnsMerges(z: string, list: seq<string>)
    requires Initialisms(list)
    ensures Adjacent(ToWords(ToAbbreviations("UiDns" + z, list), list), 3)
  {
    var w := ToAbbreviations(z, list);
    UiUp("Dns" + z, list);
    DnsUp(z, list);
    Regrouped(z, w);
    UidFound("NS" + w, list);
    NsStays("NS" + w, w, list);
  }

  lemma Regrouped(z: string, w: string)
    ensures "Ui" + ("Dns" + z) == "UiDns" + z && "UI" + ("DNS" + w) == "UID" + ("NS" + w)
  {
  }

  lemma NsStays(v: string, w: string, list: seq<string>)
    requires Initialisms(list) && v == "NS" + w
    ensures ToWords(v, list)[0] == 'N' && ToWords(v, list)[1] == 'S'
  {
    NoMatchAtN(v, list);
    assert v[1..] == "S" + w;
    FirstLetterStays("S" + w, list);
  }

  lemma NoMatchAtN(v: string, list: seq<string>)
    requires Initialisms(list) && v != "" && v[0] == 'N'
    ensures FirstMatch(v, list) == ""
  {
    var f := FirstMatch(v, list);
    assert f != "" ==> Entry(f);
  }

  lemma StillNotApart(head: string, r: string)
    requires !Apart(r)
    ensures !Apart(head + r)
  {
    var i: nat :| i < |r| && Adjacent(r, i);
    assert Adjacent(head + r, |head| + i);
  }

  lemma {:induction false} UiDnsBreaks(c: string, i: nat, list: seq<string>)
    requires Initialisms(list) && Apart(c) && UiDnsAt(c, i)
    ensures !Apart(ToWords(ToAbbreviations(c, list), list))
    decreases |c|, 0
  {
    var m := FirstWord(c, list);
    var n := Stride(m);
    var u := ToAbbreviations(c, list);
    if i == 0 {
      assert c == "UiDns" + c[5..];
      UiDnsMerges(c[5..], list);
    } else if m == "" {
      assert c[i] == c[i..][0];
      NoneAppears(c, list);
      UiDnsBeyond(c, i, 1, list);
      assert u[1..] == ToAbbreviations(c[1..], list);
      StillNotApart([u[0]], ToWords(u[1..], list));
    } else {
      assert Entry(m) && c == AsWord(m) + c[|m|..];
      WordShape(m);
      assert c[i] == c[i..][0] == 'U';
      assert i >= |m|;
      UiDnsAfterWord(m, c[|m|..], i - |m|, list);
    }
  }

  lemma UiDnsBeyond(c: string, i: nat, n: nat, list: seq<string>)
    requires Initialisms(list) && Apart(c) && UiDnsAt(c, i) && 0 < n <= i
    ensures !Apart(ToWords(ToAbbreviations(c[n..], list), list))
    decreases |c| - n, 1
  {
    SuffixOfApart(c, n);
    assert c[n..][i - n..] == c[i..];
    UiDnsBreaks(c[n..], i - n, list);
  }

  lemma MergedBreaks(c': string, list: seq<string>)
    requires Initialisms(list) && FirstWord("D" + c', list) == "" && FirstWord("Ui" + ("D" + c'), list) == "UI"
    ensures !Apart(ToWords(ToAbbreviations(c', list), list)) ==> !Apart(ToWords(ToAbbreviations("UiD" + c', list), list))
  {
    var y := ToAbbreviations(c', list);
    MergedUp(c', list);
    UidFound(y, list);
    if !Apart(ToWords(y, list)) { StillNotApart("Uid", ToWords(y, list)); }
  }

  lemma UiDnsAfterWord(m: string, rest: string, i: nat, list: seq<string>)
    requires Initialisms(list) && m in list && m != "" && FirstWord(AsWord(m) + rest, list) == m
    requires Apart(AsWord(m) + rest) && UiDnsAt(rest, i)
    ensures !Apart(ToWords(ToAbbreviations(AsWord(m) + rest, list), list))
    decreases |rest|, 1
  {
    var x := ToAbbreviations(rest, list);
    assert (AsWord(m) + rest)[|m|..] == rest;
    SuffixOfApart(AsWord(m) + rest, |m|);
    ToAbbreviationsAt(m, rest, list);
    var f := MatchAt(m, x, list);
    if f == m {
      UiDnsBreaks(rest, i, list);
      ToWordsAt(m, x, list);
      StillNotApart(AsWord(m), ToWords(x, list));
    } else {
      WordsOfThree();
      UiDnsAfterUi(rest, i, list);
    }
  }

  lemma UiDnsAfterUi(rest: string, i: nat, list: seq<string>)
    requires Initialisms(list) && FirstWord("Ui" + rest, list) == "UI" && Apart(rest) && UiDnsAt(rest, i)
    requires ToAbbreviations(rest, list) != "" && ToAbbreviations(rest, list)[0] == 'D'
    ensures !Apart(ToWords(ToAbbreviations("Ui" + rest, list), list))
    decreases |rest|, 0
  {
    var c' := MergeNeedsD(rest, list);
    if "Dns" <= rest {
      RestOfUiDns(rest);
      UiDnsMerges(rest[3..], list);
    } else {
      StartsLater(rest, i);
      UiDnsBeyond(rest, i, 1, list);
      RestOfUiD(rest, c');
      MergedBreaks(c', list);
    }
  }

  lemma RestOfUiDns(rest: string)
    requires "Dns" <= rest
    ensures "Ui" + rest == "UiDns" + rest[3..]
  {
  }

  lemma RestOfUiD(rest: string, c': string)
    requires rest == "D" + c'
    ensures "Ui" + rest == "UiD" + c' && rest[1..] == c'
  {
  }

  lemma StartsLater(rest: string, i: nat)
    requires UiDnsAt(rest, i) && rest != "" && rest[0] == 'D'
    ensures i > 0
  {
    assert rest[i] == rest[i..][0];
  }

  lemma {:induction false} AbbreviatingAddsNone(c: string, list: seq<string>)
    requires NoUnderscore(c)
    ensures NoUnderscore(ToAbbreviations(c, list))
    decreases |c|
  {
    if c != "" {
      var m := FirstWord(c, list);
      AbbreviatingAddsNone(c[Stride(m)..], list);
      if m != "" { AbbreviationHasNone(m, c); }
    }
  }

  lemma AbbreviationHasNone(m: string, c: string)
    requires m != "" && AsWord(m) <= c && NoUnderscore(c)
    ensures NoUnderscore(m)
  {
    forall i | 0 <= i < |m| ensures m[i] != '_' {
      assert c[i] != '_' && c[i] == AsWord(m)[i];
      assert i > 0 ==> AsWord(m)[i] == Lower(m[1..])[i - 1];
    }
  }

  /** Separate words, once abbreviated, are stable exactly when no Ui comes before Dns. */
  lemma SeparateWordsStableIff(c: string)
    requires NoUnderscore(c) && c != "" && CamelWords(c)
    ensures Stable(WordsToAbbreviations(c)) <==> !HasUiDns(c)
  {
    var u := WordsToAbbreviations(c);
    InitialismsHold();
    FirstLetterStays(c, INITIALISMS);
    AbbreviatingAddsNone(c, INITIALISMS);
    CamelStableIff(u);
    SpelledIff(u, INITIALISMS);
    if HasUiDns(c) {
      var i: nat :| UiDnsAt(c, i);
      UiDnsBreaks(c, i, INITIALISMS);
    } else {
      var r := WordsComeBackTogether(c, INITIALISMS);
      SofterApart(r, c);
    }
  }

  // ----- The law of the exported functions -----

  lemma RecoverableIsSeparate(s: string)
    requires SnakeText(s) && Recoverable(s) && s != ""
    ensures UpperCamel(s) != "" && NoUnderscore(UpperCamel(s)) && CamelWords(UpperCamel(s))
  {
    var c := UpperCamel(s);
    SnakeRoundTripIff(s);
    forall x | x in s ensures !IsUpper(x) { }
    UpperCamelIsScan(s);
    UpperCamelShape(s);
    var t := CamelOfUnder(c);
    LetterCases(c[0]);
    forall i: nat | i < |c| ensures !Adjacent(c, i) {
      if i + 1 < |c| && IsUpper(c[i]) {
        LetterCases(c[i + 1]);
        assert RecasedTo(c, i + 1, t[i + 1]);
      }
    }
  }

  lemma ExportedShape(s: string)
    ensures NoUnderscore(ExportedUpperCamel(s))
    ensures ExportedUpperCamel(s) != "" ==> !IsLower(ExportedUpperCamel(s)[0])
  {
    UpperCamelShape(s);
    AbbreviatingAddsNone(UpperCamel(s), INITIALISMS);
    if UpperCamel(s) != "" {
      InitialismsHold();
      FirstLetterStays(UpperCamel(s), INITIALISMS);
    }
  }

  /** What is stable at all: the same, for every text. */
  lemma StableIff(u: string)
    ensures var r := AbbreviationsToWords(u);
      Stable(u) <==> u == "" || (NoUnderscore(u) && !IsLower(u[0]) && Apart(r) && AllInCapitals(u, r, INITIALISMS))
  {
    ExportedShape(UnderScore(u));
    if u != "" && NoUnderscore(u) && !IsLower(u[0]) {
      CamelStableIff(u);
    }
  }

  /** The law ToUpperCamel . ToUnderScore . ToUpperCamel = ToUpperCamel, for every text. */
  lemma LawIff(s: string)
    ensures var u := ExportedUpperCamel(s);
      var r := AbbreviationsToWords(u);
      Stable(u) <==> Apart(r) && AllInCapitals(u, r, INITIALISMS)
  {
    var u := ExportedUpperCamel(s);
    ExportedShape(s);
    StableIff(u);
    if u == "" { NothingToRead(); }
  }

  lemma NothingToRead()
    ensures Apart(AbbreviationsToWords("")) && AllInCapitals("", AbbreviationsToWords(""), INITIALISMS)
  {
  }

  /** On snake text whose inner parts have two letters or more, it fails exactly where "ui" stands
      before "dns". */
  lemma SnakeLawIff(s: string)
    requires SnakeText(s) && Recoverable(s) && s != ""
    ensures Stable(ExportedUpperCamel(s)) <==> !HasUiDns(UpperCamel(s))
  {
    RecoverableIsSeparate(s);
    SeparateWordsStableIff(UpperCamel(s));
  }

  lemma UiDnsExample()
    ensures UpperCamel("ui_dns") == "UiDns"
  {
    UpperCamelIsScan("ui_dns");
    assert "ui_dns"[1..] == "i_dns" && "i_dns"[1..] == "_dns" && "_dns"[1..] == "dns";
    assert "dns"[1..] == "ns" && "ns"[1..] == "s" && "s"[1..] == "";
    assert Scan("ns", false) == "ns";
    assert Scan("_dns", false) == "Dns";
  }

  lemma LawFails()
    ensures !Stable(ExportedUpperCamel("ui_dns"))
  {
    UiDnsExample();
    SnakeLawIff("ui_dns");
    assert UiDnsAt("UiDns", 0);
  }
}

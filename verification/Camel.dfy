/** Conversion between camel case and underscore case, on ASCII text. */
module Camel {
  import opened Common

  predicate IsUpper(c: char) { 'A' <= c <= 'Z' }

  predicate IsLower(c: char) { 'a' <= c <= 'z' }

  predicate IsDigit(c: char) { '0' <= c <= '9' }

  function ToLower(c: char): char {
    if IsUpper(c) then ((c as int) + 32) as char else c
  }

  function ToUpper(c: char): char {
    if IsLower(c) then ((c as int) - 32) as char else c
  }

  function Lower(s: string): (r: string)
    ensures |r| == |s| && forall i :: 0 <= i < |s| ==> r[i] == ToLower(s[i])
  {
    seq(|s|, i requires 0 <= i < |s| => ToLower(s[i]))
  }

  // ----- Abbreviations -----

  const INITIALISMS: seq<string> := [
    "ASCII", "MySQL",
    "XSRF", "XSS", "YAML", "UUID", "SMTP", "HTML", "HTTP", "JSON", "UTF8",
    "QPS", "CPU", "UID", "URI", "URL", "XML", "ACL", "API", "CSS", "DNS", "EOF",
    "LHS", "RAM", "RHS", "RPC", "SLA", "SSH", "TCP", "TLS", "TTL", "UDP",
    "UI", "ID", "VM", "IP"
  ]

  /** An abbreviation written as an ordinary word. */
  function AsWord(abbr: string): (w: string)
    requires abbr != ""
    ensures |w| == |abbr|
  {
    [ToUpper(ToLower(abbr[0]))] + Lower(abbr[1..])
  }

  /** The first abbreviation of a list that s starts with. */
  function FirstMatch(s: string, list: seq<string>): (m: string)
    ensures m != "" ==> m in list && m <= s
  {
    if list == [] then ""
    else if list[0] <= s then list[0]
    else FirstMatch(s, list[1..])
  }

  /** The replacer of the abbreviations of a list by words: at each place the first pair that
      fits, and no overlaps. */
  function ToWords(s: string, list: seq<string>): (r: string)
    ensures |r| == |s|
  {
    if s == "" then ""
    else
      var m := FirstMatch(s, list);
      if m != "" then AsWord(m) + ToWords(s[|m|..], list)
      else [s[0]] + ToWords(s[1..], list)
  }

  function AbbreviationsToWords(s: string): string {
    ToWords(s, INITIALISMS)
  }

  // ----- toUpperCamel -----

  function CamelPart(p: string): string {
    if p == "" then "" else [ToUpper(Lower(p)[0])] + Lower(p)[1..]
  }

  function CamelParts(parts: seq<string>): string {
    if parts == [] then "" else CamelPart(parts[0]) + CamelParts(parts[1..])
  }

  function UpperCamel(s: string): string {
    if s == "" then ""
    else if |Split(s, '_')| == 1 then [ToUpper(s[0])] + s[1..]
    else CamelParts(Split(s, '_'))
  }

  // ----- ToUnderScore -----

  predicate Capital(c: char) {
    IsUpper(c) || IsDigit(c)
  }

  /** The rune loop; `joined` says that the next capital takes no underscore: it is the first
      rune or follows a capital. */
  function Under(s: string, joined: bool): string {
    if s == "" then "" else Piece(s[0], joined) + Under(s[1..], Capital(s[0]))
  }

  function Piece(c: char, joined: bool): string {
    if !Capital(c) then [c] else if joined then [ToLower(c)] else ['_', ToLower(c)]
  }

  function UnderScore(s: string): string {
    Under(AbbreviationsToWords(s), true)
  }

  // ----- Both conversions, rune by rune -----

  /** toUpperCamel as a scan: `up` says that the next letter starts a part. */
  function Scan(s: string, up: bool): string {
    if s == "" then ""
    else if s[0] == '_' then Scan(s[1..], true)
    else [if up then ToUpper(ToLower(s[0])) else ToLower(s[0])] + Scan(s[1..], false)
  }

  lemma {:induction false} PartsAreScanned(s: string)
    ensures var parts := Split(s, '_');
      && Scan(s, true) == CamelParts(parts)
      && Scan(s, false) == Lower(parts[0]) + CamelParts(parts[1..])
    decreases |s|
  {
    if s != "" {
      PartsAreScanned(s[1..]);
      var rest := Split(s[1..], '_');
      if s[0] == '_' { UnderscoreInFront(rest); } else { LetterInFront(s[0], rest); }
    }
  }

  lemma UnderscoreInFront(rest: seq<string>)
    requires rest != [] && forall p :: p in rest ==> '_' !in p
    ensures var parts := InFront('_', rest, '_');
      CamelParts(parts) == CamelParts(rest) && Lower(parts[0]) + CamelParts(parts[1..]) == CamelParts(rest)
  {
    assert ([""] + rest)[1..] == rest;
  }

  lemma LetterInFront(c: char, rest: seq<string>)
    requires c != '_' && rest != [] && forall p :: p in rest ==> '_' !in p
    ensures var parts := InFront(c, rest, '_');
      var tail := Lower(rest[0]) + CamelParts(rest[1..]);
      CamelParts(parts) == [ToUpper(ToLower(c))] + tail && Lower(parts[0]) + CamelParts(parts[1..]) == [ToLower(c)] + tail
  {
    var first, more := [c] + rest[0], CamelParts(rest[1..]);
    assert ([first] + rest[1..])[1..] == rest[1..];
    LowerInFront(c, rest[0]);
    Regroup([ToUpper(ToLower(c))], Lower(rest[0]), more);
    Regroup([ToLower(c)], Lower(rest[0]), more);
  }

  lemma LowerInFront(c: char, p: string)
    ensures Lower([c] + p) == [ToLower(c)] + Lower(p)
    ensures CamelPart([c] + p) == [ToUpper(ToLower(c))] + Lower(p)
  {
    assert Lower([c] + p) == [ToLower(c)] + Lower(p);
    assert ([ToLower(c)] + Lower(p))[1..] == Lower(p);
  }

  ghost predicate LowerOnly(s: string) {
    forall c :: c in s ==> !IsUpper(c)
  }

  lemma {:induction false} LowerUnchanged(s: string)
    requires LowerOnly(s) && '_' !in s
    ensures Scan(s, false) == s
    decreases |s|
  {
    if s != "" {
      assert s[0] in s && forall c :: c in s[1..] ==> c in s;
      LowerUnchanged(s[1..]);
    }
  }

  lemma {:induction false} OnePartHasNoUnderscore(s: string)
    requires |Split(s, '_')| == 1
    ensures '_' !in s
    decreases |s|
  {
    if s != "" {
      OnePartHasNoUnderscore(s[1..]);
      assert s == [s[0]] + s[1..];
    }
  }

  /** On text without capital letters toUpperCamel is the scan. */
  lemma UpperCamelIsScan(s: string)
    requires LowerOnly(s)
    ensures UpperCamel(s) == Scan(s, true)
  {
    PartsAreScanned(s);
    if s != "" && |Split(s, '_')| == 1 {
      OnePartHasNoUnderscore(s);
      assert s[0] in s && forall c :: c in s[1..] ==> c in s;
      LowerUnchanged(s[1..]);
    }
  }

  // ----- From snake case and back -----

  /** Lower-case letters and underscores. */
  predicate SnakeText(s: string) {
    forall i :: 0 <= i < |s| ==> IsLower(s[i]) || s[i] == '_'
  }

  /** The underscore at i, if there is one, has two letters before it and one after it. */
  predicate Keeps(s: string, i: nat)
    requires i < |s|
  {
    s[i] == '_' ==> 2 <= i < |s| - 1 && s[i - 2] != '_' && s[i - 1] != '_' && s[i + 1] != '_'
  }

  /** No part is empty and only the last may be a single letter. */
  predicate Recoverable(s: string) {
    forall i :: 0 <= i < |s| ==> Keeps(s, i)
  }

  /** The text read before a point, as far as the two conversions remember it: `up` and `joined`
      are their states there. */
  function Context(up: bool, joined: bool): string {
    if up && joined then "" else if joined then "a" else if up then "ab_" else "ab"
  }

  /** What the second conversion still owes: an underscore waiting for a letter. */
  function Owed(up: bool, joined: bool): string {
    if up && !joined then "_" else ""
  }

  /** Whether underscores further on survive depends on the text before only through Context. */
  lemma LetterStep(c: char, rest: string, up: bool, joined: bool)
    requires IsLower(c)
    ensures Recoverable(Context(up, joined) + [c] + rest) <==> Recoverable(Context(false, up) + rest)
  {
    var x, y := Context(up, joined) + [c], Context(false, up);
    var s, t := x + rest, y + rest;
    if Recoverable(s) {
      forall i | 0 <= i < |t| ensures Keeps(t, i) {
        if i >= |y| { KeepsShifted(c, rest, up, joined, i - |y|); }
      }
    }
    if Recoverable(t) {
      forall i | 0 <= i < |s| ensures Keeps(s, i) {
        if i >= |x| { KeepsShifted(c, rest, up, joined, i - |x|); }
      }
    }
  }

  lemma KeepsShifted(c: char, rest: string, up: bool, joined: bool, i: nat)
    requires IsLower(c) && i < |rest|
    ensures var x, y := Context(up, joined) + [c], Context(false, up);
      Keeps(x + rest, |x| + i) <==> Keeps(y + rest, |y| + i)
  {
  }

  /** An underscore survives its arrival only after two letters, and is then owed. */
  lemma UnderscoreStep(rest: string, up: bool, joined: bool)
    ensures !up && !joined ==> Context(up, joined) + ("_" + rest) == Context(true, joined) + rest
    ensures up || joined ==> !Recoverable(Context(up, joined) + ("_" + rest))
  {
    var s := Context(up, joined) + ("_" + rest);
    if up || joined {
      assert !Keeps(s, |Context(up, joined)|);
    }
  }

  /** From any point on, the two conversions give back the text if no underscore of it is lost,
      and something shorter if one is. */
  lemma {:induction false} BackIffRecoverable(s: string, up: bool, joined: bool)
    requires SnakeText(s)
    ensures Recoverable(Context(up, joined) + s) ==> Under(Scan(s, up), joined) == Owed(up, joined) + s
    ensures !Recoverable(Context(up, joined) + s) ==> |Under(Scan(s, up), joined)| < |Owed(up, joined) + s|
    decreases |s|
  {
    var before := Context(up, joined);
    if s == "" {
      assert before + s == before;
      assert up && !joined ==> !Keeps(before, 2);
    } else if s[0] == '_' {
      assert s == "_" + s[1..];
      BackIffRecoverable(s[1..], true, joined);
      UnderscoreStep(s[1..], up, joined);
    } else {
      assert before + s == before + [s[0]] + s[1..];
      BackIffRecoverable(s[1..], false, up);
      LetterStep(s[0], s[1..], up, joined);
      ScanLetter(s, up, joined);
    }
  }

  lemma ScanLetter(s: string, up: bool, joined: bool)
    requires s != "" && IsLower(s[0])
    ensures Under(Scan(s, up), joined) == (if up && !joined then "_" else "") + [s[0]] + Under(Scan(s[1..], false), up)
  {
    var c := if up then ToUpper(s[0]) else s[0];
    assert Scan(s, up)[1..] == Scan(s[1..], false);
    assert ToLower(ToUpper(s[0])) == s[0];
  }

  /** The underscore loop inverts toUpperCamel on exactly the recoverable snake texts. */
  lemma SnakeRoundTripIff(s: string)
    requires SnakeText(s)
    ensures Under(UpperCamel(s), true) == s <==> Recoverable(s)
  {
    forall c | c in s ensures !IsUpper(c) { }
    UpperCamelIsScan(s);
    BackIffRecoverable(s, true, true);
    assert Context(true, true) + s == s && Owed(true, true) + s == s;
  }

  // ----- From camel case and back -----

  predicate NoUnderscore(s: string) {
    forall i :: 0 <= i < |s| ==> s[i] != '_'
  }

  /** An upper-case letter stands at i + 1 right behind another or behind a digit. */
  predicate Adjacent(s: string, i: nat) {
    i + 1 < |s| && (IsUpper(s[i]) || IsDigit(s[i])) && IsUpper(s[i + 1])
  }

  predicate Apart(s: string) {
    forall i: nat :: i < |s| ==> !Adjacent(s, i)
  }

  /** Starts with no lower-case letter, and no upper-case letter follows another or a digit. */
  predicate CamelWords(s: string)
    requires s != ""
  {
    !IsLower(s[0]) && Apart(s)
  }

  lemma LetterCases(c: char)
    requires c != '_'
    ensures ToLower(c) != '_' && !IsUpper(ToLower(c)) && ToLower(ToLower(c)) == ToLower(c)
    ensures ToUpper(c) != '_' && !IsLower(ToUpper(c)) && (IsLower(c) ==> IsUpper(ToUpper(c)))
    ensures ToLower(ToUpper(ToLower(c))) == ToLower(c) && ToUpper(ToLower(c)) == ToUpper(c)
    ensures !IsLower(c) ==> ToUpper(c) == c
    ensures IsDigit(ToLower(c)) <==> IsDigit(c)
  {
  }

  /** r differs from s in the case of letters at most. */
  ghost predicate Recasing(r: string, s: string) {
    |r| == |s| && NoUnderscore(r) && forall i :: 0 <= i < |s| ==> ToLower(r[i]) == ToLower(s[i])
  }

  lemma RecasingJoined(a: string, b: string, x: string, y: string, s: string)
    requires Recasing(a, x) && Recasing(b, y) && s == x + y
    ensures Recasing(a + b, s)
  {
  }

  /** Replacing abbreviations changes the case of letters only, and never that of a leading capital. */
  lemma {:induction false} ReplacerKeepsLetters(s: string, list: seq<string>)
    requires NoUnderscore(s)
    ensures Recasing(ToWords(s, list), s)
    ensures s != "" && !IsLower(s[0]) ==> ToWords(s, list)[0] == s[0]
    decreases |s|
  {
    if s != "" {
      var m := FirstMatch(s, list);
      if m != "" {
        var rest := s[|m|..];
        ReplacerKeepsLetters(rest, list);
        PrefixHasNoUnderscore(m, s);
        WordIsRecasing(m);
        RecasingJoined(AsWord(m), ToWords(rest, list), m, rest, s);
      } else {
        ReplacerKeepsLetters(s[1..], list);
        assert s == [s[0]] + s[1..];
        RecasingJoined([s[0]], ToWords(s[1..], list), [s[0]], s[1..], s);
      }
    }
  }

  lemma PrefixHasNoUnderscore(m: string, s: string)
    requires m <= s && NoUnderscore(s)
    ensures NoUnderscore(m)
  {
    assert forall i :: 0 <= i < |m| ==> m[i] == s[i];
  }

  lemma WordIsRecasing(m: string)
    requires m != "" && NoUnderscore(m)
    ensures Recasing(AsWord(m), m) && AsWord(m)[0] == ToUpper(m[0])
  {
    LetterCases(m[0]);
    forall i | 1 <= i < |m| ensures AsWord(m)[i] == ToLower(m[i]) && AsWord(m)[i] != '_' {
      assert AsWord(m)[i] == Lower(m[1..])[i - 1];
      LetterCases(m[i]);
    }
  }

  predicate Neighbours(m: string) {
    Adjacent(m, 0) || Adjacent(m, 2)
  }

  /** Every abbreviation holds two neighbouring capitals. */
  lemma AbbreviationsHaveNeighbours(m: string)
    requires m in INITIALISMS
    ensures Neighbours(m)
  {
    var k :| 0 <= k < |INITIALISMS| && INITIALISMS[k] == m;
    if k < 18 { FirstHalf(k); } else { SecondHalf(k); }
  }

  lemma FirstHalf(k: nat)
    requires k < 18
    ensures Neighbours(INITIALISMS[k])
  {
  }

  lemma SecondHalf(k: nat)
    requires 18 <= k < 36
    ensures Neighbours(INITIALISMS[k])
  {
  }

  lemma NeighboursOfPrefix(m: string, s: string)
    requires m <= s && Neighbours(m)
    ensures Adjacent(s, 0) || Adjacent(s, 2)
  {
  }

  /** ... so none occurs where capitals are kept apart. */
  lemma {:induction false} ReplacerLeavesWords(s: string, list: seq<string>)
    requires Apart(s) && forall m :: m in list ==> Neighbours(m)
    ensures ToWords(s, list) == s
    decreases |s|
  {
    if s != "" {
      var m := FirstMatch(s, list);
      if m != "" {
        NeighboursOfPrefix(m, s);
        assert false;
      }
      forall i: nat | i < |s[1..]| ensures !Adjacent(s[1..], i) {
        assert !Adjacent(s, i + 1);
      }
      ReplacerLeavesWords(s[1..], list);
    }
  }

  /** What toUpperCamel makes of the underscore form of r, rune by rune. */
  function Recased(r: string, joined: bool): (t: string)
    ensures |t| == |r|
  {
    if r == "" then ""
    else [if IsUpper(r[0]) && !joined then r[0] else ToLower(r[0])] + Recased(r[1..], Capital(r[0]))
  }

  lemma {:induction false} RecasedAt(r: string, joined: bool, i: nat)
    requires i < |r|
    ensures var follows := if i == 0 then joined else Capital(r[i - 1]);
      Recased(r, joined)[i] == if IsUpper(r[i]) && !follows then r[i] else ToLower(r[i])
    decreases i
  {
    if i > 0 {
      RecasedAt(r[1..], Capital(r[0]), i - 1);
    }
  }

  lemma {:induction false} ScanOfUnder(r: string, joined: bool)
    requires NoUnderscore(r)
    ensures LowerOnly(Under(r, joined))
    ensures Scan(Under(r, joined), false) == Recased(r, joined)
    decreases |r|
  {
    if r != "" {
      var c := r[0];
      LetterCases(c);
      ScanOfUnder(r[1..], Capital(c));
      var rest := Under(r[1..], Capital(c));
      var u := Under(r, joined);
      assert forall x :: x in u ==> x in Piece(c, joined) || x in rest;
      if Capital(c) && !joined {
        assert u == ['_', ToLower(c)] + rest;
        assert u[1..] == [ToLower(c)] + rest;
        assert u[1..][1..] == rest;
      } else {
        assert u == [ToLower(c)] + rest;
        assert u[1..] == rest;
      }
    }
  }

  /** The round trip in terms of the text the replacer leaves. */
  lemma UpperCamelOfUnder(r: string)
    requires NoUnderscore(r) && r != ""
    ensures UpperCamel(Under(r, true)) == [ToUpper(r[0])] + Recased(r[1..], Capital(r[0]))
  {
    LetterCases(r[0]);
    ScanOfUnder(r, true);
    ScanOfUnder(r[1..], Capital(r[0]));
    var u := Under(r, true);
    UpperCamelIsScan(u);
    assert u == [ToLower(r[0])] + Under(r[1..], Capital(r[0]));
    assert u[1..] == Under(r[1..], Capital(r[0]));
  }

  /** c is what the round trip makes of the letter at i. */
  predicate RecasedTo(r: string, i: int, c: char)
    requires 1 <= i < |r|
  {
    c == if IsUpper(r[i]) && !Capital(r[i - 1]) then r[i] else ToLower(r[i])
  }

  lemma CamelOfUnder(r: string) returns (t: string)
    requires NoUnderscore(r) && r != ""
    ensures t == UpperCamel(Under(r, true)) && |t| == |r|
    ensures t[0] == ToUpper(r[0]) && forall i :: 1 <= i < |r| ==> RecasedTo(r, i, t[i])
  {
    t := UpperCamel(Under(r, true));
    UpperCamelOfUnder(r);
    forall i | 1 <= i < |r| ensures RecasedTo(r, i, t[i]) {
      RecasedAt(r[1..], Capital(r[0]), i - 1);
    }
  }

  /** Without the replacer, separate words come back. */
  lemma WordsComeBack(r: string)
    requires NoUnderscore(r) && r != "" && CamelWords(r)
    ensures UpperCamel(Under(r, true)) == r
  {
    var t := CamelOfUnder(r);
    LetterCases(r[0]);
    forall i | 0 <= i < |r| ensures t[i] == r[i] {
      if i > 0 { assert !Adjacent(r, i - 1) && RecasedTo(r, i, t[i]); }
    }
  }

  lemma RoundTripKeepsApart(s: string, r: string, t: string)
    requires NoUnderscore(s) && Recasing(r, s) && s != "" && t == s
    requires t[0] == ToUpper(r[0]) && (!IsLower(s[0]) ==> r[0] == s[0])
    requires forall i :: 1 <= i < |s| ==> RecasedTo(r, i, t[i])
    ensures CamelWords(s)
  {
    LetterCases(r[0]);
    forall i: nat | i < |s| ensures !Adjacent(s, i) {
      if i + 1 < |s| && IsUpper(s[i + 1]) {
        LetterCases(r[i + 1]);
        LetterCases(r[i]);
        LetterCases(s[i]);
        assert RecasedTo(r, i + 1, t[i + 1]);
        assert !Capital(r[i]);
        assert i > 0 ==> RecasedTo(r, i, t[i]);
      }
    }
  }

  lemma {:induction false} CamelPartsHaveNone(parts: seq<string>)
    requires forall p :: p in parts ==> '_' !in p
    ensures NoUnderscore(CamelParts(parts))
    decreases |parts|
  {
    if parts != [] {
      CamelPartsHaveNone(parts[1..]);
      assert parts[0] in parts;
      CamelPartHasNone(parts[0]);
    }
  }

  lemma CamelPartHasNone(p: string)
    requires '_' !in p
    ensures NoUnderscore(CamelPart(p)) && |CamelPart(p)| == |p|
  {
    forall i | 0 <= i < |p| ensures CamelPart(p)[i] != '_' {
      assert p[i] in p;
      LetterCases(p[i]);
    }
  }

  /** Upper camel case holds no underscore and starts with no lower-case letter. */
  lemma UpperCamelShape(s: string)
    ensures NoUnderscore(UpperCamel(s))
    ensures UpperCamel(s) != "" ==> !IsLower(UpperCamel(s)[0])
  {
    var parts := Split(s, '_');
    if s != "" && |parts| == 1 {
      OnePartHasNoUnderscore(s);
      assert forall i :: 0 <= i < |s| ==> s[i] in s;
      LetterCases(s[0]);
    } else {
      CamelPartsHaveNone(parts);
      PartsStartUpper(parts);
    }
  }

  lemma {:induction false} PartsStartUpper(parts: seq<string>)
    ensures CamelParts(parts) != "" ==> !IsLower(CamelParts(parts)[0])
    decreases |parts|
  {
    if parts != [] {
      PartsStartUpper(parts[1..]);
    }
  }

  /** toUpperCamel inverts ToUnderScore on exactly the empty text and the texts that hold no
      underscore, start with no lower-case letter and have no capital right behind another or behind
      a digit, abbreviations included. */
  lemma CamelRoundTripIff(s: string)
    ensures UpperCamel(UnderScore(s)) == s <==> s == "" || (NoUnderscore(s) && CamelWords(s))
  {
    UpperCamelShape(UnderScore(s));
    if s != "" && NoUnderscore(s) {
      var r := AbbreviationsToWords(s);
      ReplacerKeepsLetters(s, INITIALISMS);
      if CamelWords(s) {
        forall m | m in INITIALISMS ensures Neighbours(m) { AbbreviationsHaveNeighbours(m); }
        ReplacerLeavesWords(s, INITIALISMS);
        WordsComeBack(s);
      } else {
        var t := CamelOfUnder(r);
        LetterCases(r[0]);
        if t == s { RoundTripKeepsApart(s, r, t); }
      }
    }
  }
}

/** The conversions as the code performs them, with Go's letter tables; on ASCII text they are the
    conversions whose round trips Camel and ExportedCamel describe. */
module CamelText {
  import opened Common
  import opened Camel
  import opened ExportedCamel

  /** unicode.IsUpper, IsDigit, ToUpper and ToLower. */
  datatype Letters = Letters(isUpper: char -> bool, isDigit: char -> bool, toUpper: char -> char, toLower: char -> char)

  // ----- What the loops compute -----

  function LowerBy(s: string, u: Letters): (r: string)
    ensures |r| == |s| && forall i :: 0 <= i < |s| ==> r[i] == u.toLower(s[i])
  {
    seq(|s|, i requires 0 <= i < |s| => u.toLower(s[i]))
  }

  function CamelPartBy(p: string, u: Letters): string {
    if p == "" then "" else [u.toUpper(LowerBy(p, u)[0])] + LowerBy(p, u)[1..]
  }

  function CamelPartsBy(parts: seq<string>, u: Letters): string {
    if parts == [] then "" else CamelPartBy(parts[0], u) + CamelPartsBy(parts[1..], u)
  }

  function UpperCamelBy(s: string, u: Letters): string {
    if s == "" then ""
    else if |Split(s, '_')| == 1 then [u.toUpper(s[0])] + s[1..]
    else CamelPartsBy(Split(s, '_'), u)
  }

  predicate CapitalBy(c: char, u: Letters) {
    u.isUpper(c) || u.isDigit(c)
  }

  function PieceBy(c: char, joined: bool, u: Letters): string {
    if !CapitalBy(c, u) then [c] else if joined then [u.toLower(c)] else ['_', u.toLower(c)]
  }

  function UnderBy(s: string, joined: bool, u: Letters): string {
    if s == "" then "" else PieceBy(s[0], joined, u) + UnderBy(s[1..], CapitalBy(s[0], u), u)
  }

  function UnderScoreBy(s: string, u: Letters): string {
    UnderBy(AbbreviationsToWords(s), true, u)
  }

  function ExportedBy(s: string, u: Letters): string {
    WordsToAbbreviations(UpperCamelBy(s, u))
  }

  // ----- What that means for each rune and each part -----

  /** A rune at the end adds itself, in lower case if it is a capital or a digit, and then behind an
      underscore if it follows neither. */
  lemma {:induction false} UnderAtEnd(a: string, c: char, joined: bool, u: Letters)
    requires a != ""
    ensures var last := a[|a| - 1];
      UnderBy(a + [c], joined, u) == UnderBy(a, joined, u) +
        if !u.isUpper(c) && !u.isDigit(c) then [c]
        else if u.isUpper(last) || u.isDigit(last) then [u.toLower(c)]
        else ['_', u.toLower(c)]
    decreases |a|
  {
    var next := CapitalBy(a[0], u);
    assert (a + [c])[1..] == a[1..] + [c];
    if |a| == 1 {
      assert a[1..] + [c] == [c];
      UnderSingle(c, next, u);
    } else {
      UnderAtEnd(a[1..], c, next, u);
    }
  }

  lemma UnderSingle(c: char, joined: bool, u: Letters)
    ensures UnderBy([c], joined, u) ==
      if !u.isUpper(c) && !u.isDigit(c) then [c] else if joined then [u.toLower(c)] else ['_', u.toLower(c)]
  {
    assert UnderBy([c], joined, u) == PieceBy(c, joined, u) + UnderBy([c][1..], CapitalBy(c, u), u);
  }

  lemma {:induction false} PartsJoined(p: seq<string>, q: seq<string>, u: Letters)
    ensures CamelPartsBy(p + q, u) == CamelPartsBy(p, u) + CamelPartsBy(q, u)
    decreases |p|
  {
    if p == [] {
      assert p + q == q;
    } else {
      assert (p + q)[1..] == p[1..] + q;
      PartsJoined(p[1..], q, u);
      Regroup(CamelPartBy(p[0], u), CamelPartsBy(p[1..], u), CamelPartsBy(q, u));
    }
  }

  lemma BehindUnderscore(a: string, u: Letters)
    ensures UpperCamelBy("_" + a, u) == CamelPartsBy(Split(a, '_'), u)
  {
    SplitJoined("", a, '_');
    assert "" + ['_'] + a == "_" + a;
    PartsJoined([""], Split(a, '_'), u);
    assert CamelPartsBy([""], u) == "";
  }

  /** The words on both sides of an underscore are converted apart from each other. */
  lemma UpperCamelJoins(a: string, b: string, u: Letters)
    ensures UpperCamelBy(a + "_" + b, u) == UpperCamelBy("_" + a, u) + UpperCamelBy("_" + b, u)
  {
    BehindUnderscore(a, u);
    BehindUnderscore(b, u);
    SplitJoined(a, b, '_');
    PartsJoined(Split(a, '_'), Split(b, '_'), u);
  }

  /** A word among others gets a capital and small letters; a word alone gets the capital only. */
  lemma UpperCamelOfWord(p: string, u: Letters)
    requires '_' !in p && p != ""
    ensures UpperCamelBy(p, u) == [u.toUpper(p[0])] + p[1..]
    ensures var r := UpperCamelBy("_" + p, u);
      |r| == |p| && r[0] == u.toUpper(u.toLower(p[0])) && forall i :: 1 <= i < |p| ==> r[i] == u.toLower(p[i])
  {
    BehindUnderscore(p, u);
    SplitSingle(p, '_');
    SinglePart(p, u);
  }

  lemma SinglePart(p: string, u: Letters)
    requires p != ""
    ensures var r := CamelPartsBy([p], u);
      |r| == |p| && r[0] == u.toUpper(u.toLower(p[0])) && forall i :: 1 <= i < |p| ==> r[i] == u.toLower(p[i])
  {
    var r := CamelPartBy(p, u);
    assert CamelPartsBy([p], u) == r + CamelPartsBy([p][1..], u) == r;
    assert forall i :: 1 <= i < |p| ==> r[i] == LowerBy(p, u)[i];
  }

  // ----- The loops -----

  /** The unexported toUpperCamel. */
  method ToPlainUpperCamel(s: string, u: Letters) returns (r: string)
    ensures r == UpperCamelBy(s, u)
  {
    if s == "" {
      return "";
    }
    var parts := Split(s, '_');
    if |parts| == 1 {
      return [u.toUpper(s[0])] + s[1..];
    }
    r := JoinParts(parts, u);
  }

  method JoinParts(parts: seq<string>, u: Letters) returns (r: string)
    ensures r == CamelPartsBy(parts, u)
  {
    r := "";
    for i := 0 to |parts|
      invariant CamelPartsBy(parts, u) == r + CamelPartsBy(parts[i..], u)
    {
      ghost var before := r;
      NextPart(parts, i, u);
      if parts[i] != "" {
        var lower := LowerBy(parts[i], u);
        r := r + ([u.toUpper(lower[0])] + lower[1..]);
      }
      assert r == before + CamelPartBy(parts[i], u);
      Regroup(before, CamelPartBy(parts[i], u), CamelPartsBy(parts[i + 1..], u));
    }
  }

  lemma NextPart(parts: seq<string>, i: nat, u: Letters)
    requires i < |parts|
    ensures CamelPartsBy(parts[i..], u) == CamelPartBy(parts[i], u) + CamelPartsBy(parts[i + 1..], u)
  {
    assert parts[i..][1..] == parts[i + 1..];
  }

  method ToUnderScore(s: string, u: Letters) returns (r: string)
    ensures r == UnderScoreBy(s, u)
  {
    if s == "" {
      return "";
    }
    r := UnderScoreRunes(AbbreviationsToWords(s), u);
  }

  method UnderScoreRunes(runes: string, u: Letters) returns (r: string)
    ensures r == UnderBy(runes, true, u)
  {
    r := "";
    for i := 0 to |runes|
      invariant UnderBy(runes, true, u) == r + UnderBy(runes[i..], i == 0 || CapitalBy(runes[i - 1], u), u)
    {
      ghost var before, joined := r, i == 0 || CapitalBy(runes[i - 1], u);
      UnderNext(runes, i, joined, u);
      if u.isUpper(runes[i]) || u.isDigit(runes[i]) {
        if i > 0 && !u.isUpper(runes[i - 1]) && !u.isDigit(runes[i - 1]) {
          r := r + "_";
        }
        r := r + [u.toLower(runes[i])];
      } else {
        r := r + [runes[i]];
      }
      assert r == before + PieceBy(runes[i], joined, u);
      Regroup(before, PieceBy(runes[i], joined, u), UnderBy(runes[i + 1..], CapitalBy(runes[i], u), u));
    }
  }

  lemma UnderNext(s: string, i: nat, joined: bool, u: Letters)
    requires i < |s|
    ensures UnderBy(s[i..], joined, u) == PieceBy(s[i], joined, u) + UnderBy(s[i + 1..], CapitalBy(s[i], u), u)
  {
  }

  method ToUpperCamel(s: string, u: Letters) returns (r: string)
    ensures r == ExportedBy(s, u)
  {
    if s == "" {
      return "";
    }
    r := ToPlainUpperCamel(s, u);
    r := WordsToAbbreviations(r);
  }

  // ----- On ASCII text -----

  predicate IsAscii(c: char) {
    c < 128 as char
  }

  predicate Ascii(s: string) {
    forall i :: 0 <= i < |s| ==> IsAscii(s[i])
  }

  /** Whatever the tables say of other characters, on ASCII they are the usual ones. */
  ghost predicate UsualOnAscii(u: Letters) {
    forall c :: IsAscii(c) ==> UsualAt(u, c)
  }

  predicate UsualAt(u: Letters, c: char) {
    u.isUpper(c) == IsUpper(c) && u.isDigit(c) == IsDigit(c) && u.toUpper(c) == ToUpper(c) && u.toLower(c) == ToLower(c)
  }

  lemma AsciiCases(c: char)
    ensures IsAscii(ToLower(c)) <==> IsAscii(c)
    ensures IsAscii(ToUpper(c)) <==> IsAscii(c)
  {
  }

  lemma AsciiPart(p: string, u: Letters)
    requires UsualOnAscii(u) && Ascii(p)
    ensures CamelPartBy(p, u) == CamelPart(p) && Ascii(CamelPart(p))
  {
    forall i | 0 <= i < |p| ensures LowerBy(p, u)[i] == Lower(p)[i] && IsAscii(Lower(p)[i]) {
      assert UsualAt(u, p[i]);
      AsciiCases(p[i]);
    }
    assert LowerBy(p, u) == Lower(p);
    if p != "" {
      assert UsualAt(u, Lower(p)[0]);
      AsciiCases(Lower(p)[0]);
    }
  }

  lemma {:induction false} AsciiParts(parts: seq<string>, u: Letters)
    requires UsualOnAscii(u) && forall p :: p in parts ==> Ascii(p)
    ensures CamelPartsBy(parts, u) == CamelParts(parts) && Ascii(CamelParts(parts))
    decreases |parts|
  {
    if parts != [] {
      assert parts[0] in parts;
      AsciiPart(parts[0], u);
      AsciiParts(parts[1..], u);
    }
  }

  lemma {:induction false} AsciiSplit(s: string)
    requires Ascii(s)
    ensures forall p :: p in Split(s, '_') ==> Ascii(p)
    decreases |s|
  {
    if s != "" {
      AsciiSplit(s[1..]);
      var rest := Split(s[1..], '_');
      assert rest[0] in rest;
      assert forall p :: p in rest[1..] ==> p in rest;
    }
  }

  lemma AsciiUpperCamel(s: string, u: Letters)
    requires UsualOnAscii(u) && Ascii(s)
    ensures UpperCamelBy(s, u) == UpperCamel(s) && Ascii(UpperCamel(s))
  {
    AsciiSplit(s);
    AsciiParts(Split(s, '_'), u);
    if s != "" {
      assert UsualAt(u, s[0]);
      AsciiCases(s[0]);
    }
  }

  lemma {:induction false} AsciiUnder(s: string, joined: bool, u: Letters)
    requires UsualOnAscii(u) && Ascii(s)
    ensures UnderBy(s, joined, u) == Under(s, joined) && Ascii(Under(s, joined))
    decreases |s|
  {
    if s != "" {
      assert UsualAt(u, s[0]);
      AsciiCases(s[0]);
      AsciiUnder(s[1..], Capital(s[0]), u);
    }
  }

  lemma AsciiWord(m: string)
    requires m != ""
    ensures Ascii(AsWord(m)) <==> Ascii(m)
  {
    AsciiCases(m[0]);
    AsciiCases(ToLower(m[0]));
    forall i | 1 <= i < |m| ensures IsAscii(AsWord(m)[i]) <==> IsAscii(m[i]) {
      assert AsWord(m)[i] == Lower(m[1..])[i - 1];
      AsciiCases(m[i]);
    }
  }

  lemma AsciiPrefix(p: string, s: string)
    requires p <= s && Ascii(s)
    ensures Ascii(p) && Ascii(s[|p|..])
  {
    assert forall i :: 0 <= i < |p| ==> p[i] == s[i];
  }

  lemma {:induction false} AsciiReplaced(s: string, list: seq<string>)
    requires Ascii(s)
    ensures Ascii(ToWords(s, list)) && Ascii(ToAbbreviations(s, list))
    decreases |s|
  {
    if s != "" {
      var f, m := FirstMatch(s, list), FirstWord(s, list);
      AsciiReplaced(s[1..], list);
      if f != "" {
        AsciiPrefix(f, s);
        AsciiWord(f);
        AsciiReplaced(s[|f|..], list);
      }
      if m != "" {
        AsciiPrefix(AsWord(m), s);
        AsciiWord(m);
        AsciiReplaced(s[|m|..], list);
      }
    }
  }

  lemma AsciiUnderScore(s: string, u: Letters)
    requires UsualOnAscii(u) && Ascii(s)
    ensures UnderScoreBy(s, u) == UnderScore(s) && Ascii(UnderScore(s))
  {
    AsciiReplaced(s, INITIALISMS);
    AsciiUnder(AbbreviationsToWords(s), true, u);
  }

  lemma AsciiExported(s: string, u: Letters)
    requires UsualOnAscii(u) && Ascii(s)
    ensures ExportedBy(s, u) == ExportedUpperCamel(s) && Ascii(ExportedUpperCamel(s))
  {
    AsciiUpperCamel(s, u);
    AsciiReplaced(UpperCamel(s), INITIALISMS);
  }

  /** The round trip of the loops on ASCII text, whatever the tables say elsewhere. */
  lemma RoundTripOnAscii(s: string, u: Letters)
    requires UsualOnAscii(u) && Ascii(s)
    ensures UpperCamelBy(UnderScoreBy(s, u), u) == s <==> s == "" || (NoUnderscore(s) && CamelWords(s))
  {
    AsciiUnderScore(s, u);
    AsciiUpperCamel(UnderScore(s), u);
    CamelRoundTripIff(s);
  }

  /** Likewise the law of the exported functions. */
  lemma LawOnAscii(s: string, u: Letters)
    requires UsualOnAscii(u) && Ascii(s)
    ensures var c := ExportedBy(s, u);
      var r := AbbreviationsToWords(c);
      ExportedBy(UnderScoreBy(c, u), u) == c <==> Apart(r) && AllInCapitals(c, r, INITIALISMS)
  {
    AsciiExported(s, u);
    AsciiUnderScore(ExportedUpperCamel(s), u);
    AsciiExported(UnderScore(ExportedUpperCamel(s)), u);
    LawIff(s);
  }
}

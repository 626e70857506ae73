/** Locale.FormatTemplate: the values of its placeholders, and when it is substitution in one pass. */
module LocaleFormat {
  import opened Common
  import opened Template
  import opened TemplateExact

  /** What the template reads from the time and the locale. */
  datatype Fields = Fields(
    year: int, month: string, day: nat, weekday: string, hour: nat, minute: nat, second: nat)

  function SignedDecimal(n: int): string {
    if n < 0 then "-" + Decimal(-n) else Decimal(n)
  }

  /** "%02d" */
  function TwoDigits(n: nat): string {
    if n < 10 then "0" + Decimal(n) else Decimal(n)
  }

  function Values(f: Fields): seq<string> {
    [SignedDecimal(f.year), f.month, Decimal(f.day), f.weekday, TwoDigits(f.hour), TwoDigits(f.minute), TwoDigits(f.second)]
  }

  /** The empty template stands for the default layout. */
  function FormatTemplate(template: string, f: Fields, defaultText: string): string {
    if template == "" then defaultText else Sequential(template, Values(f), 7)
  }

  lemma NumericIsSafe(v: string, k: nat)
    requires Numeric(v) && k < 7
    ensures Safe(v, Placeholder(k)) && '{' !in v
  {
    var pat := Placeholder(k);
    forall i | 0 <= i < |v| ensures !Agree(v[i..], pat) {
      assert v[i..][0] in v && pat[0] == '{';
    }
    forall j | 1 <= j < 4 ensures !Agree(v, pat[j..]) {
      assert v[0] in v && pat[j..][0] == pat[j];
    }
  }

  lemma NumericValues(f: Fields)
    ensures forall k :: 0 <= k < 7 && k != 1 && k != 3 ==> Numeric(Values(f)[k])
  {
  }

  ghost predicate SafeFor(name: string, k: nat)
    requires k < 7
  {
    Safe(name, Placeholder(k))
  }

  /** No placeholder still to come can be formed with the month or the weekday name.  One thing
      is harmless: a weekday name that is its own placeholder. */
  ghost predicate NamesSafe(f: Fields) {
    && SafeFor(f.weekday, 4) && SafeFor(f.weekday, 5) && SafeFor(f.weekday, 6)
    && SafeFor(f.month, 2) && SafeFor(f.month, 4) && SafeFor(f.month, 5) && SafeFor(f.month, 6)
    && (SafeFor(f.month, 3) || f.weekday == Placeholder(3))
  }

  lemma NumericIsNoPlaceholder(v: string, k: nat)
    requires Numeric(v) && k < 7
    ensures v != Placeholder(k)
  {
    assert v[0] in v;
  }

  lemma NamesSafeSuffices(f: Fields)
    requires NamesSafe(f)
    ensures AllSafe(Values(f))
  {
    var v := Values(f);
    NumericValues(f);
    forall n | 0 <= n < 7 ensures SafeStep(v, n) {
      if n != 3 || SafeFor(f.month, 3) {
        forall k | 0 <= k < n ensures Safe(v[k], Placeholder(n)) {
          if k == 1 { assert SafeFor(f.month, n); }
          else if k == 3 { assert SafeFor(f.weekday, n); }
          else { NumericIsSafe(v[k], n); }
        }
        assert SafeBelow(v, n);
      }
    }
  }

  ghost predicate AlwaysOnePass(f: Fields, defaultText: string) {
    forall t :: t != "" ==> FormatTemplate(t, f, defaultText) == OnePass(t, Values(f), 7)
  }

  lemma UnsafeWeekdayShows(f: Fields, j: nat, defaultText: string)
    requires 4 <= j < 7 && !SafeFor(f.weekday, j)
    ensures !AlwaysOnePass(f, defaultText)
  {
    var v := Values(f);
    NumericValues(f);
    forall k, n | 3 < k < n < 7 ensures Safe(v[k], Placeholder(n)) { NumericIsSafe(v[k], n); }
    NumericIsNoPlaceholder(v[j], j);
    UnsafeValueDiffers(3, j, v);
    var t :| t != "" && Sequential(t, v, 7) != OnePass(t, v, 7);
    assert FormatTemplate(t, f, defaultText) != OnePass(t, v, 7);
  }

  lemma UnsafeMonthShows(f: Fields, j: nat, defaultText: string)
    requires 2 <= j < 7 && !SafeFor(f.month, j) && (j == 3 ==> f.weekday != Placeholder(3))
    requires SafeFor(f.weekday, 4) && SafeFor(f.weekday, 5) && SafeFor(f.weekday, 6)
    ensures !AlwaysOnePass(f, defaultText)
  {
    var v := Values(f);
    NumericValues(f);
    forall k, n | 1 < k < n < 7 ensures Safe(v[k], Placeholder(n)) {
      if k == 3 { assert SafeFor(f.weekday, n); } else { NumericIsSafe(v[k], n); }
    }
    if j != 3 { NumericIsNoPlaceholder(v[j], j); }
    SafeNameNotEmpty(f.weekday, 4);
    forall k | 2 <= k < 7 ensures NumberOrName(After(v, 1), k) {
      assert After(v, 1)[k] == v[k];
    }
    assert NumbersOrSame(After(v, 1));
    UnsafeValueDiffers(1, j, v);
    var t :| t != "" && Sequential(t, v, 7) != OnePass(t, v, 7);
    assert FormatTemplate(t, f, defaultText) != OnePass(t, v, 7);
  }

  lemma SafeNameNotEmpty(name: string, k: nat)
    requires k < 7 && SafeFor(name, k)
    ensures name != ""
  {
    assert !Agree(name, Placeholder(k)[1..]);
  }

  /** The seven replacements are substitution in one pass, for every template, exactly when the
      names are safe. */
  lemma FormatTemplateIff(f: Fields, defaultText: string)
    ensures AlwaysOnePass(f, defaultText) <==> NamesSafe(f)
  {
    if NamesSafe(f) {
      NamesSafeSuffices(f);
      forall t | t != "" ensures FormatTemplate(t, f, defaultText) == OnePass(t, Values(f), 7) {
        SequentialIsOnePass(t, Values(f), 7);
      }
    } else if j :| 4 <= j < 7 && !SafeFor(f.weekday, j) {
      UnsafeWeekdayShows(f, j, defaultText);
    } else {
      assert SafeFor(f.weekday, 4) && SafeFor(f.weekday, 5) && SafeFor(f.weekday, 6);
      var j :| 2 <= j < 7 && !SafeFor(f.month, j) && (j == 3 ==> f.weekday != Placeholder(3));
      UnsafeMonthShows(f, j, defaultText);
    }
  }

  /** A name without braces and percent signs that is neither empty nor the letter of a placeholder. */
  predicate Plain(name: string) {
    && name != "" && '{' !in name && '}' !in name && '%' !in name
    && name !in {"y", "M", "d", "w", "h", "m", "s"}
  }

  lemma PlainNameIsSafe(name: string, k: nat)
    requires Plain(name) && k < 7
    ensures SafeFor(name, k)
  {
    var pat := Placeholder(k);
    forall i | 0 <= i < |name| ensures !Agree(name[i..], pat) {
      assert name[i..][0] in name && pat[0] == '{';
    }
    forall j | 1 <= j < 4 ensures !Agree(name, pat[j..]) {
      assert name[0] in name && pat[j..][0] == pat[j];
      if j == 2 {
        if |name| > 1 { assert name[1] in name && pat[2..][1] == '}'; }
        else { assert name == [name[0]]; }
      }
    }
  }

  /** Ordinary names need no such care. */
  lemma PlainNames(f: Fields, defaultText: string)
    requires Plain(f.month) && Plain(f.weekday)
    ensures AlwaysOnePass(f, defaultText)
  {
    forall k: nat | k < 7 ensures SafeFor(f.month, k) && SafeFor(f.weekday, k) {
      PlainNameIsSafe(f.month, k);
      PlainNameIsSafe(f.weekday, k);
    }
    FormatTemplateIff(f, defaultText);
  }

  // ----- What each placeholder shows, with the placeholders as text -----

  lemma {:induction false} NothingReplaced(s: string, pat: string, value: string)
    requires pat != "" && forall i :: 0 <= i < |s| ==> !(pat <= s[i..])
    ensures ReplaceAll(s, pat, value) == s
    decreases |s|
  {
    if s != "" {
      assert s[0..] == s;
      forall i | 0 <= i < |s[1..]| ensures !(pat <= s[1..][i..]) { assert s[1..][i..] == s[i + 1..]; }
      NothingReplaced(s[1..], pat, value);
    }
  }

  lemma NoBraceNoPlaceholder(s: string, k: nat, value: string)
    requires k < 7 && '{' !in s
    ensures ReplaceAll(s, Placeholder(k), value) == s
  {
    forall i | 0 <= i < |s| ensures !(Placeholder(k) <= s[i..]) { assert s[i..][0] in s && Placeholder(k)[0] == '{'; }
    NothingReplaced(s, Placeholder(k), value);
  }

  lemma ReplaceOther(j: nat, k: nat, value: string)
    requires j < 7 && k < 7
    ensures ReplaceAll(Placeholder(k), Placeholder(j), value) == if j == k then value else Placeholder(k)
  {
    var s, pat := Placeholder(k), Placeholder(j);
    if j == k {
      assert s[4..] == "";
    } else {
      if pat <= s { OneMatch(s, j, k); }
      NoBraceNoPlaceholder(s[1..], j, value);
    }
  }

  /** A placeholder alone becomes its value, which the later replacements leave alone. */
  lemma {:induction false} AloneShows(k: nat, values: seq<string>, n: nat)
    requires k < 7 == |values| && n <= 7 && '{' !in values[k]
    ensures Sequential(Placeholder(k), values, n) == if n <= k then Placeholder(k) else values[k]
    decreases n
  {
    if n > 0 {
      AloneShows(k, values, n - 1);
      if n - 1 <= k { ReplaceOther(n - 1, k, values[n - 1]); } else { NoBraceNoPlaceholder(values[k], n - 1, values[n - 1]); }
    }
  }

  lemma TwoDigitsRead(n: nat)
    ensures AllDigits(TwoDigits(n)) && NumberOf(TwoDigits(n)) == n && (n < 100 ==> |TwoDigits(n)| == 2)
  {
    DecimalReadsBack(n);
    if n < 10 {
      NumberOfShort(['0', Digit(n)]);
      DigitReadsBack(n);
    } else if n < 100 {
      DecimalReadsBack(n / 10);
    }
  }

  lemma NumberOfShort(s: string)
    requires |s| == 2
    ensures NumberOf(s) == 10 * (s[0] as int - '0' as int) + (s[1] as int - '0' as int)
  {
    var t := s[..1];
    assert t[..0] == "";
    assert NumberOf(t) == t[0] as int - '0' as int;
  }

  /** Digits that read as n, with leading zeros up to the width, if that is 2. */
  predicate ShowsNumber(s: string, n: int, width: nat) {
    && s != "" && AllDigits(s) && NumberOf(s) == n
    && (width == 2 && n < 100 ==> |s| == 2)
    && (width == 1 || n >= 10 ==> |s| == 1 || s[0] != '0')
  }

  lemma ShowsValue(k: nat, f: Fields, defaultText: string)
    requires k < 7 && '{' !in Values(f)[k]
    ensures FormatTemplate(Placeholder(k), f, defaultText) == Values(f)[k]
  {
    AloneShows(k, Values(f), 7);
  }

  lemma DigitsShow(n: nat)
    ensures ShowsNumber(Decimal(n), n, 1) && ShowsNumber(TwoDigits(n), n, 2)
    ensures '{' !in Decimal(n) && '{' !in TwoDigits(n)
  {
    DecimalReadsBack(n);
    TwoDigitsRead(n);
  }

  /** "{%h}", "{%m}" and "{%s}" show the hour, the minute and the second in at least two digits. */
  lemma TimeShows(f: Fields, defaultText: string)
    ensures ShowsNumber(FormatTemplate("{%h}", f, defaultText), f.hour, 2)
    ensures ShowsNumber(FormatTemplate("{%m}", f, defaultText), f.minute, 2)
    ensures ShowsNumber(FormatTemplate("{%s}", f, defaultText), f.second, 2)
  {
    DigitsShow(f.hour);
    DigitsShow(f.minute);
    DigitsShow(f.second);
    assert Placeholder(4) == "{%h}" && Placeholder(5) == "{%m}" && Placeholder(6) == "{%s}";
    ShowsValue(4, f, defaultText);
    ShowsValue(5, f, defaultText);
    ShowsValue(6, f, defaultText);
  }

  /** "{%d}" shows the day and "{%y}" the year with its sign. */
  lemma DateShows(f: Fields, defaultText: string)
    ensures ShowsNumber(FormatTemplate("{%d}", f, defaultText), f.day, 1)
    ensures ShowsSigned(FormatTemplate("{%y}", f, defaultText), f.year)
  {
    DigitsShow(f.day);
    SignedShows(f.year);
    assert Placeholder(0) == "{%y}" && Placeholder(2) == "{%d}";
    ShowsValue(0, f, defaultText);
    ShowsValue(2, f, defaultText);
  }

  predicate ShowsSigned(s: string, n: int) {
    if n < 0 then s != "" && s[0] == '-' && ShowsNumber(s[1..], -n, 1) else ShowsNumber(s, n, 1)
  }

  lemma SignedShows(n: int)
    ensures ShowsSigned(SignedDecimal(n), n) && '{' !in SignedDecimal(n)
  {
    if n < 0 {
      DigitsShow(-n);
      assert SignedDecimal(n)[1..] == Decimal(-n);
    } else {
      DigitsShow(n);
    }
  }

  /** "{%M}" and "{%w}" show the names, if these have no brace or are safe. */
  lemma NamesShow(f: Fields, defaultText: string)
    ensures '{' !in f.month || NamesSafe(f) ==> FormatTemplate("{%M}", f, defaultText) == f.month
    ensures '{' !in f.weekday || NamesSafe(f) ==> FormatTemplate("{%w}", f, defaultText) == f.weekday
  {
    assert Placeholder(1) == "{%M}" && Placeholder(3) == "{%w}";
    NameShows(1, f, defaultText);
    NameShows(3, f, defaultText);
  }

  lemma NameShows(k: nat, f: Fields, defaultText: string)
    requires k == 1 || k == 3
    ensures '{' !in Values(f)[k] || NamesSafe(f) ==> FormatTemplate(Placeholder(k), f, defaultText) == Values(f)[k]
  {
    if '{' !in Values(f)[k] {
      ShowsValue(k, f, defaultText);
    } else if NamesSafe(f) {
      FormatIsOnePass(Placeholder(k), f, defaultText);
      OnePassOfPlaceholder(k, Values(f));
    }
  }

  lemma FormatIsOnePass(t: string, f: Fields, defaultText: string)
    requires NamesSafe(f) && t != ""
    ensures FormatTemplate(t, f, defaultText) == OnePass(t, Values(f), 7)
  {
    FormatTemplateIff(f, defaultText);
  }

  lemma OnePassOfPlaceholder(k: nat, values: seq<string>)
    requires k < 7 == |values|
    ensures OnePass(Placeholder(k), values, 7) == values[k]
  {
    OnePassAtPlaceholder(k, "", values);
    assert Placeholder(k) + "" == Placeholder(k);
  }

  predicate IsPlaceholder(p: string) {
    |p| == 4 && p[0] == '{' && p[1] == '%' && p[2] in {'y', 'M', 'd', 'w', 'h', 'm', 's'} && p[3] == '}'
  }

  lemma PlaceholderListed(p: string)
    ensures IsPlaceholder(p) <==> exists k :: 0 <= k < 7 && p == Placeholder(k)
  {
    if IsPlaceholder(p) {
      var k := if p[2] == 'y' then 0 else if p[2] == 'M' then 1 else if p[2] == 'd' then 2 else if p[2] == 'w' then 3
        else if p[2] == 'h' then 4 else if p[2] == 'm' then 5 else 6;
      assert p == Placeholder(k);
    }
  }

  predicate PlaceholderAt(s: string, i: nat) {
    i + 4 <= |s| && IsPlaceholder(s[i..i + 4])
  }

  lemma PlaceholderSeen(s: string, i: nat, k: nat)
    requires k < 7 && i < |s|
    ensures Placeholder(k) <= s[i..] ==> PlaceholderAt(s, i)
  {
    if Placeholder(k) <= s[i..] {
      assert s[i..i + 4] == s[i..][..4] == Placeholder(k);
      PlaceholderListed(Placeholder(k));
    }
  }

  /** Text without a placeholder stays as it is, and no text at all stands for the default layout. */
  lemma TextKept(s: string, f: Fields, defaultText: string)
    requires forall i: nat :: i < |s| ==> !PlaceholderAt(s, i)
    ensures FormatTemplate(s, f, defaultText) == if s == "" then defaultText else s
  {
    TextKeptBy(s, Values(f), 7);
  }

  lemma {:induction false} TextKeptBy(s: string, values: seq<string>, n: nat)
    requires n <= 7 == |values| && forall i: nat :: i < |s| ==> !PlaceholderAt(s, i)
    ensures Sequential(s, values, n) == s
    decreases n
  {
    if n > 0 {
      TextKeptBy(s, values, n - 1);
      forall i: nat | i < |s| ensures !(Placeholder(n - 1) <= s[i..]) { PlaceholderSeen(s, i, n - 1); }
      NothingReplaced(s, Placeholder(n - 1), values[n - 1]);
    }
  }

  /** With safe names a template may be cut before a brace and after a placeholder, and its parts be
      formatted one by one. */
  lemma TemplateSplits(a: string, b: string, f: Fields, defaultText: string)
    requires NamesSafe(f) && a != "" && b != "" && (b[0] == '{' || IsPlaceholder(a))
    ensures FormatTemplate(a + b, f, defaultText) == FormatTemplate(a, f, defaultText) + FormatTemplate(b, f, defaultText)
  {
    FormatIsOnePass(a + b, f, defaultText);
    FormatIsOnePass(a, f, defaultText);
    FormatIsOnePass(b, f, defaultText);
    if b[0] == '{' {
      OnePassSplits(a, b, Values(f));
    } else {
      PlaceholderListed(a);
      var k :| 0 <= k < 7 && a == Placeholder(k);
      OnePassAtPlaceholder(k, b, Values(f));
      OnePassOfPlaceholder(k, Values(f));
    }
  }
}

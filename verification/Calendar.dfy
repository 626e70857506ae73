/** The proleptic Gregorian calendar: day numbers (0 is 1970-01-01) and dates. */
module Calendar {

  datatype Date = Date(year: int, month: int, day: int)

  predicate IsLeap(y: int) {
    y % 4 == 0 && (y % 100 != 0 || y % 400 == 0)
  }

  function DaysIn(y: int, m: int): int {
    if m == 2 then (if IsLeap(y) then 29 else 28)
    else if m == 4 || m == 6 || m == 9 || m == 11 then 30
    else 31
  }

  predicate IsDate(c: Date) {
    1 <= c.month <= 12 && 1 <= c.day <= DaysIn(c.year, c.month)
  }

  /** With months counted from March, all lengths but February's are the steps of (153 q + 2) / 5. */
  lemma MonthLengths(y: int, m: int)
    requires 1 <= m <= 12
    ensures var q := (m + 9) % 12; m != 2 ==> DaysIn(y, m) == (153 * (q + 1) + 2) / 5 - (153 * q + 2) / 5
    ensures m == 2 ==> DaysIn(y, m) == 28 || DaysIn(y, m) == 29
  {
  }

  /** The three rules for the 29th of February, one year of each kind. */
  lemma LeapDays()
    ensures IsDate(Date(2000, 2, 29)) && IsDate(Date(2024, 2, 29))
    ensures !IsDate(Date(1900, 2, 29)) && !IsDate(Date(2100, 2, 29)) && !IsDate(Date(2023, 2, 29))
  {
  }

  /** The calendar day after a date: the reference the day numbers are measured against. */
  function Tomorrow(c: Date): Date {
    if c.day < DaysIn(c.year, c.month) then c.(day := c.day + 1)
    else if c.month < 12 then Date(c.year, c.month + 1, 1)
    else Date(c.year + 1, 1, 1)
  }

  // ----- From dates to day numbers -----

  const DAYS_TO_1970: int := 719162

  /** The day number of the first of January. */
  function YearStart(y: int): int {
    var p := y - 1;
    365 * p + p / 4 - p / 100 + p / 400 - DAYS_TO_1970
  }

  /** Days of a year before month m; month 13 stands for the end of the year. */
  function DaysBefore(leap: bool, m: int): int
    requires 1 <= m <= 13
  {
    var feb := if leap then 29 else 28;
    if m == 1 then 0
    else if m == 2 then 31
    else if m == 3 then 31 + feb
    else if m == 4 then 62 + feb
    else if m == 5 then 92 + feb
    else if m == 6 then 123 + feb
    else if m == 7 then 153 + feb
    else if m == 8 then 184 + feb
    else if m == 9 then 215 + feb
    else if m == 10 then 245 + feb
    else if m == 11 then 276 + feb
    else if m == 12 then 306 + feb
    else 337 + feb
  }

  function MonthStart(y: int, m: int): int
    requires 1 <= m <= 13
  {
    YearStart(y) + DaysBefore(IsLeap(y), m)
  }

  /** The day number time.Date computes: months beyond the year carry into it, and days beyond
      the month run on. */
  function DayNumber(y: int, m: int, d: int): int {
    MonthStart(y + (m - 1) / 12, (m - 1) % 12 + 1) + d - 1
  }

  function DateNumber(c: Date): int {
    DayNumber(c.year, c.month, c.day)
  }

  lemma YearLength(y: int)
    ensures YearStart(y + 1) == YearStart(y) + if IsLeap(y) then 366 else 365
  {
    FourthYears(y);
    Centuries(y);
    Eras(y);
    assert IsLeap(y) ==> y % 4 == 0;
    assert y % 400 == 0 ==> y % 100 == 0 && y % 4 == 0;
  }

  /** 400 years are 146097 days, which are whole weeks. */
  lemma EraLength(y: int)
    ensures YearStart(y + 400) == YearStart(y) + 146097 && 146097 % 7 == 0
  {
    EraQuotients(y - 1, y + 399);
  }

  lemma EraQuotients(p: int, r: int)
    requires r == p + 400
    ensures r / 4 == p / 4 + 100 && r / 100 == p / 100 + 4 && r / 400 == p / 400 + 1
  {
  }

  /** Leap years come at the same places in every 400. */
  lemma EraLeaps(y: int, z: int)
    requires z == y + 400
    ensures IsLeap(z) <==> IsLeap(y)
  {
    EraQuotients(y, z);
    SameRemainders(y, z);
  }

  lemma SameRemainders(y: int, z: int)
    requires z == y + 400
    requires z / 4 == y / 4 + 100 && z / 100 == y / 100 + 4 && z / 400 == y / 400 + 1
    ensures z % 4 == y % 4 && z % 100 == y % 100 && z % 400 == y % 400
  {
  }

  lemma FourthYears(y: int)
    ensures y / 4 == (y - 1) / 4 + if y % 4 == 0 then 1 else 0
  {
  }

  lemma Centuries(y: int)
    ensures y / 100 == (y - 1) / 100 + if y % 100 == 0 then 1 else 0
    ensures y % 100 == 0 ==> y % 4 == 0
  {
  }

  lemma Eras(y: int)
    ensures y / 400 == (y - 1) / 400 + if y % 400 == 0 then 1 else 0
    ensures y % 400 == 0 ==> y % 100 == 0
  {
  }

  ghost predicate Increasing(f: int -> int) {
    forall k :: f(k) < f(k + 1)
  }

  lemma {:induction false} IncreasingOrders(f: int -> int, j: int, k: int)
    requires Increasing(f) && j < k
    ensures f(j) < f(k)
    decreases k - j
  {
    assert f(k - 1) < f(k - 1 + 1);
    if j < k - 1 {
      IncreasingOrders(f, j, k - 1);
    }
  }

  lemma YearsIncrease()
    ensures Increasing(YearStart)
  {
    forall y ensures YearStart(y) < YearStart(y + 1) {
      YearLength(y);
    }
  }

  lemma YearBefore(y: int, z: int)
    requires y < z
    ensures YearStart(y + 1) <= YearStart(z)
  {
    YearsIncrease();
    if y + 1 < z { IncreasingOrders(YearStart, y + 1, z); }
  }

  /** The last month runs up to the next year. */
  lemma YearEnd(y: int)
    ensures MonthStart(y, 13) == YearStart(y + 1)
  {
    YearLength(y);
  }

  lemma MonthsInOrder(leap: bool, m: int, n: int)
    requires 1 <= m < n <= 13
    ensures DaysBefore(leap, m + 1) <= DaysBefore(leap, n)
  {
  }

  /** A later month starts no earlier than this one ends. */
  lemma MonthBefore(y: int, m: int, z: int, n: int)
    requires 1 <= m <= 12 && 1 <= n <= 12 && (y < z || (y == z && m < n))
    ensures MonthStart(y, m + 1) <= MonthStart(z, n)
  {
    if y < z {
      YearEnd(y);
      YearBefore(y, z);
      if m < 12 { MonthsInOrder(IsLeap(y), m, 13); }
    } else {
      MonthsInOrder(IsLeap(y), m, n);
    }
  }

  // ----- From day numbers to dates -----

  /** Position of a day in the cycles of 400, 100, 4 and 1 years. */
  datatype Cycles = Cycles(era: int, century: int, quad: int, year: int, rest: int)

  function CyclesOf(d: int): Cycles {
    var era, doe := d / 146097, d % 146097;
    var c := if doe / 36524 == 4 then 3 else doe / 36524;
    var doc := doe - 36524 * c;
    var q, doq := doc / 1461, doc % 1461;
    var r := if doq / 365 == 4 then 3 else doq / 365;
    Cycles(era, c, q, r, doq - 365 * r)
  }

  function YearOf(n: int): int {
    var c := CyclesOf(n + DAYS_TO_1970);
    400 * c.era + 100 * c.century + 4 * c.quad + c.year + 1
  }

  lemma CyclesAddUp(d: int)
    ensures var c := CyclesOf(d);
      && d == 146097 * c.era + 36524 * c.century + 1461 * c.quad + 365 * c.year + c.rest
      && 0 <= c.century <= 3 && 0 <= c.quad <= 24 && 0 <= c.year <= 3 && 0 <= c.rest <= 365
      && (c.rest == 365 ==> c.year == 3 && (c.quad < 24 || c.century == 3))
  {
  }

  lemma YearStartCycles(c: Cycles)
    requires 0 <= c.century <= 3 && 0 <= c.quad <= 24 && 0 <= c.year <= 3
    ensures YearStart(400 * c.era + 100 * c.century + 4 * c.quad + c.year + 1) ==
      146097 * c.era + 36524 * c.century + 1461 * c.quad + 365 * c.year - DAYS_TO_1970
  {
    var p := 400 * c.era + 100 * c.century + 4 * c.quad + c.year;
    assert p / 4 == 100 * c.era + 25 * c.century + c.quad;
    assert p / 100 == 4 * c.era + c.century;
    assert p / 400 == c.era;
  }

  /** The last year of four is a leap year, unless it ends a century that does not end an era. */
  lemma LeapAtEnd(era: int, c: int, q: int)
    requires 0 <= c <= 3 && 0 <= q <= 24 && (q < 24 || c == 3)
    ensures IsLeap(400 * era + 100 * c + 4 * q + 4)
  {
    var y := 400 * era + 100 * c + 4 * q + 4;
    FourthYear(100 * era + 25 * c + q + 1);
    if q == 24 {
      LastYearOfEra(era + 1);
    } else {
      YearOfCentury(4 * era + c, 4 * q + 4);
    }
  }

  lemma FourthYear(k: int)
    ensures (4 * k) % 4 == 0
  {
  }

  lemma YearOfCentury(k: int, y: int)
    requires 0 <= y < 100
    ensures (100 * k + y) % 100 == y
  {
  }

  lemma LastYearOfEra(k: int)
    ensures (400 * k) % 400 == 0
  {
  }

  lemma YearOfCorrect(n: int)
    ensures YearStart(YearOf(n)) <= n < YearStart(YearOf(n) + 1)
  {
    var c := CyclesOf(n + DAYS_TO_1970);
    CyclesAddUp(n + DAYS_TO_1970);
    YearStartCycles(c);
    YearLength(YearOf(n));
    if c.rest == 365 {
      LeapAtEnd(c.era, c.century, c.quad);
    }
  }

  /** The month that contains the day numbered doy (from 0) of a year. */
  function MonthOf(leap: bool, doy: int): (m: int)
    requires 0 <= doy < if leap then 366 else 365
    ensures 1 <= m <= 12
    ensures DaysBefore(leap, m) <= doy < DaysBefore(leap, m + 1)
  {
    if doy < DaysBefore(leap, 2) then 1
    else if doy < DaysBefore(leap, 3) then 2
    else if doy < DaysBefore(leap, 4) then 3
    else if doy < DaysBefore(leap, 5) then 4
    else if doy < DaysBefore(leap, 6) then 5
    else if doy < DaysBefore(leap, 7) then 6
    else if doy < DaysBefore(leap, 8) then 7
    else if doy < DaysBefore(leap, 9) then 8
    else if doy < DaysBefore(leap, 10) then 9
    else if doy < DaysBefore(leap, 11) then 10
    else if doy < DaysBefore(leap, 12) then 11
    else 12
  }

  lemma DayOfYearInRange(n: int)
    ensures 0 <= n - YearStart(YearOf(n)) < if IsLeap(YearOf(n)) then 366 else 365
  {
    YearOfCorrect(n);
    YearLength(YearOf(n));
  }

  /** The date of the day numbered doy (from 0) of year y. */
  function DateIn(y: int, doy: int): Date
    requires 0 <= doy < if IsLeap(y) then 366 else 365
  {
    var m := MonthOf(IsLeap(y), doy);
    Date(y, m, doy - DaysBefore(IsLeap(y), m) + 1)
  }

  function DateOf(n: int): Date {
    DayOfYearInRange(n);
    DateIn(YearOf(n), n - YearStart(YearOf(n)))
  }

  // ----- The two are inverse, and agree with the calendar on paper -----

  lemma DateNumberIs(c: Date)
    requires 1 <= c.month <= 12
    ensures DateNumber(c) == MonthStart(c.year, c.month) + c.day - 1
  {
    assert (c.month - 1) / 12 == 0 && (c.month - 1) % 12 == c.month - 1;
  }

  lemma MonthLength(leap: bool, y: int, m: int)
    requires 1 <= m <= 12 && leap == IsLeap(y)
    ensures DaysBefore(leap, m + 1) == DaysBefore(leap, m) + DaysIn(y, m)
  {
  }

  lemma InMonth(c: Date)
    requires IsDate(c)
    ensures MonthStart(c.year, c.month) <= DateNumber(c) < MonthStart(c.year, c.month + 1)
  {
    DateNumberIs(c);
    MonthLength(IsLeap(c.year), c.year, c.month);
  }

  lemma DateInCorrect(y: int, doy: int)
    requires 0 <= doy < if IsLeap(y) then 366 else 365
    ensures IsDate(DateIn(y, doy)) && DateNumber(DateIn(y, doy)) == YearStart(y) + doy
  {
    var c := DateIn(y, doy);
    DateNumberIs(c);
    MonthLength(IsLeap(y), y, c.month);
  }

  lemma NumberOfDate(n: int)
    ensures IsDate(DateOf(n)) && DateNumber(DateOf(n)) == n
  {
    DayOfYearInRange(n);
    NumberInYear(n, YearOf(n), n - YearStart(YearOf(n)), DateOf(n));
  }

  lemma NumberInYear(n: int, y: int, doy: int, c: Date)
    requires 0 <= doy < if IsLeap(y) then 366 else 365
    requires n == YearStart(y) + doy && c == DateIn(y, doy)
    ensures IsDate(c) && DateNumber(c) == n
  {
    DateInCorrect(y, doy);
  }

  predicate EarlierMonth(c: Date, e: Date) {
    c.year < e.year || (c.year == e.year && c.month < e.month)
  }

  /** A date of an earlier month comes before the end of that month, one of a later month not. */
  lemma MonthsApart(c: Date, e: Date)
    requires IsDate(c) && IsDate(e) && EarlierMonth(c, e)
    ensures DateNumber(c) < MonthStart(c.year, c.month + 1) <= DateNumber(e)
  {
    InMonth(c);
    InMonth(e);
    MonthBefore(c.year, c.month, e.year, e.month);
  }

  lemma SameDate(c: Date, e: Date)
    requires IsDate(c) && IsDate(e)
    ensures DateNumber(c) == DateNumber(e) ==> c == e
  {
    if EarlierMonth(c, e) {
      MonthsApart(c, e);
    } else if EarlierMonth(e, c) {
      MonthsApart(e, c);
    } else {
      DateNumberIs(c);
      DateNumberIs(e);
    }
  }

  /** DateOf finds the one date with a given number. */
  lemma DateOfNumber(c: Date, n: int)
    requires IsDate(c) && DateNumber(c) == n
    ensures DateOf(n) == c
  {
    NumberOfDate(n);
    SameDate(DateOf(n), c);
  }

  lemma TomorrowIsDate(c: Date)
    requires IsDate(c)
    ensures IsDate(Tomorrow(c))
  {
  }

  lemma TomorrowIsNext(c: Date)
    requires IsDate(c)
    ensures DateNumber(Tomorrow(c)) == DateNumber(c) + 1
  {
    TomorrowIsDate(c);
    DateNumberIs(c);
    DateNumberIs(Tomorrow(c));
    if c.day == DaysIn(c.year, c.month) {
      LastOfMonth(c.year, c.month);
      FirstOfNext(c.year, c.month);
    }
  }

  lemma FirstOfNext(y: int, m: int)
    requires 1 <= m <= 12
    ensures Tomorrow(Date(y, m, DaysIn(y, m))) == if m < 12 then Date(y, m + 1, 1) else Date(y + 1, 1, 1)
  {
  }

  /** The first of the next month follows the last day of this one. */
  lemma LastOfMonth(y: int, m: int)
    requires 1 <= m <= 12
    ensures MonthStart(y, m) + DaysIn(y, m) == if m < 12 then MonthStart(y, m + 1) else MonthStart(y + 1, 1)
  {
    MonthLength(IsLeap(y), y, m);
    if m == 12 { YearEnd(y); }
  }

  lemma NextDate(c: Date, n: int)
    requires IsDate(c) && DateNumber(c) == n
    ensures DateOf(n + 1) == Tomorrow(c)
  {
    TomorrowIsDate(c);
    TomorrowIsNext(c);
    DateOfNumber(Tomorrow(c), n + 1);
  }

  /** The date after day n is the date of day n + 1. */
  lemma CalendarIsGregorian(n: int)
    ensures DateOf(n + 1) == Tomorrow(DateOf(n))
  {
    NumberOfDate(n);
    NextDate(DateOf(n), n);
  }

  lemma DayZero()
    ensures DateOf(0) == Date(1970, 1, 1)
  {
    NumberOfEpoch();
    DateOfNumber(Date(1970, 1, 1), 0);
  }

  lemma NumberOfEpoch()
    ensures DateNumber(Date(1970, 1, 1)) == 0
  {
    DateNumberIs(Date(1970, 1, 1));
    assert YearStart(1970) == 0;
  }
}

/** Starts of days, weeks and months and the next reset times, at a fixed zone offset. */
module Resets {
  import opened Common
  import opened Calendar

  const DAY: int := 86_400_000_000_000   // nanoseconds

  /** A moment, in nanoseconds since 1970-01-01 00:00 UTC, and the offset of its zone. */
  datatype Time = Time(instant: int, offset: int)

  // ----- The operations of Go's time package the code is built from -----

  /** The moment `clock` into day n of the zone. */
  function At(n: int, clock: int, offset: int): Time {
    Time(n * DAY + clock - offset, offset)
  }

  function DayOf(t: Time): int {
    (t.instant + t.offset) / DAY
  }

  function ClockOf(t: Time): int {
    (t.instant + t.offset) % DAY
  }

  /** t.Add(d) */
  function Plus(t: Time, d: int): Time {
    t.(instant := t.instant + d)
  }

  function MakeDate(y: int, m: int, d: int, clock: int, offset: int): Time {
    At(DayNumber(y, m, d), clock, offset)
  }

  function AddDate(t: Time, years: int, months: int, days: int): Time {
    var c := DateOf(DayOf(t));
    MakeDate(c.year + years, c.month + months, c.day + days, ClockOf(t), t.offset)
  }

  /** Sunday is 0; day 0 was a Thursday. */
  function Weekday(t: Time): int {
    (DayOf(t) + 4) % 7
  }

  // ----- The functions of xtime -----

  function StartOfDay(t: Time): Time {
    var c := DateOf(DayOf(t));
    MakeDate(c.year, c.month, c.day, 0, t.offset)
  }

  function StartOfWeek(t: Time): Time {
    var weekday := if Weekday(t) == 0 then 7 else Weekday(t);
    StartOfDay(AddDate(t, 0, 0, -(weekday - 1)))
  }

  function StartOfMonth(t: Time): Time {
    var c := DateOf(DayOf(t));
    MakeDate(c.year, c.month, 1, 0, t.offset)
  }

  function NextDailyTime(t: Time, delay: int): Time {
    Plus(AddDate(StartOfDay(Plus(t, NegateInt64(delay))), 0, 0, 1), delay)
  }

  function NextWeeklyTime(t: Time, delay: int): Time {
    Plus(AddDate(StartOfWeek(Plus(t, NegateInt64(delay))), 0, 0, 7), delay)
  }

  function NextMonthlyTime(t: Time, delay: int): Time {
    Plus(AddDate(StartOfMonth(Plus(t, NegateInt64(delay))), 0, 1, 0), delay)
  }

  // ----- Days -----

  lemma DayOfAt(n: int, clock: int, offset: int)
    requires 0 <= clock < DAY
    ensures DayOf(At(n, clock, offset)) == n && ClockOf(At(n, clock, offset)) == clock
  {
    assert (n * DAY + clock) / DAY == n;
  }

  lemma DaysAdd(y: int, m: int, d: int, k: int)
    ensures DayNumber(y, m, d + k) == DayNumber(y, m, d) + k
  {
  }

  /** Going a number of days on keeps the time of day. */
  lemma AddDays(t: Time, days: int)
    ensures AddDate(t, 0, 0, days) == At(DayOf(t) + days, ClockOf(t), t.offset)
  {
    NumberOfDate(DayOf(t));
    var c := DateOf(DayOf(t));
    DaysAdd(c.year, c.month, c.day, days);
  }

  lemma StartOfDayIs(t: Time)
    ensures StartOfDay(t) == At(DayOf(t), 0, t.offset)
  {
    NumberOfDate(DayOf(t));
  }

  // ----- Boundaries, defined without the code -----

  /** By the clocks of the zone, x is `delay` after the midnight of day n. */
  predicate AfterMidnight(x: int, n: int, delay: int, offset: int) {
    x + offset == n * DAY + delay
  }

  /** Midnight of some day, plus the delay. */
  ghost predicate DailyBoundary(x: int, offset: int, delay: int) {
    exists n :: AfterMidnight(x, n, delay, offset)
  }

  ghost predicate Monday(n: int) {
    n % 7 == 4   // 1970-01-05 was a Monday
  }

  ghost predicate WeeklyBoundary(x: int, offset: int, delay: int) {
    exists n :: Monday(n) && AfterMidnight(x, n, delay, offset)
  }

  /** Midnight of the first day of some month, plus the delay. */
  ghost predicate MonthlyBoundary(x: int, offset: int, delay: int) {
    exists n :: DateOf(n).day == 1 && AfterMidnight(x, n, delay, offset)
  }

  lemma DayLength()
    ensures DAY == 24 * 60 * 60 * 1_000_000_000
  {
  }

  lemma AtIff(x: int, n: int, delay: int, offset: int)
    ensures AfterMidnight(x, n, delay, offset) <==> x == At(n, delay, offset).instant
  {
  }

  /** A Monday: the first of January 2024. */
  lemma MondayAnchored()
    ensures Monday(DateNumber(Date(2024, 1, 1))) && Weekday(At(DateNumber(Date(2024, 1, 1)), 0, 0)) == 1
  {
    DateNumberIs(Date(2024, 1, 1));
    assert YearStart(2024) == 19723;
    DayOfAt(19723, 0, 0);
  }

  // ----- Next daily and weekly times -----

  ghost predicate IsNextDaily(x: int, t: Time, delay: int) {
    && t.instant < x <= t.instant + DAY
    && DailyBoundary(x, t.offset, delay)
    && forall b :: DailyBoundary(b, t.offset, delay) && t.instant < b ==> x <= b
  }

  ghost predicate IsNextWeekly(x: int, t: Time, delay: int) {
    && t.instant < x <= t.instant + 7 * DAY
    && WeeklyBoundary(x, t.offset, delay)
    && forall b :: WeeklyBoundary(b, t.offset, delay) && t.instant < b ==> x <= b
  }

  ghost predicate IsNextMonthly(x: int, t: Time, delay: int) {
    && t.instant < x <= t.instant + 31 * DAY
    && MonthlyBoundary(x, t.offset, delay)
    && forall b :: MonthlyBoundary(b, t.offset, delay) && t.instant < b ==> x <= b
  }

  lemma NextDailyIs(t: Time, delay: int)
    ensures NextDailyTime(t, delay).instant == At(DayOf(Plus(t, NegateInt64(delay))) + 1, delay, t.offset).instant
  {
    var u := Plus(t, NegateInt64(delay));
    StartOfDayIs(u);
    DayOfAt(DayOf(u), 0, t.offset);
    AddDays(StartOfDay(u), 1);
  }

  /** A midnight plus delay lies after t exactly when its day comes after the day t - delay is in. */
  lemma AfterIff(t: Time, delay: int, n: int)
    ensures t.instant < At(n, delay, t.offset).instant <==> DayOf(Plus(t, -delay)) < n
  {
    var local := t.instant - delay + t.offset;
    assert local < n * DAY <==> local / DAY < n;
  }

  /** The next daily time is the least midnight-plus-delay after t, for every 64-bit delay but
      the least, which cannot be negated. */
  lemma NextDailyIff(t: Time, delay: int)
    requires IsInt64(delay)
    ensures IsNextDaily(NextDailyTime(t, delay).instant, t, delay) <==> delay != MIN_INT64
  {
    NextDailyIs(t, delay);
    if delay != MIN_INT64 {
      MidnightAfterIsNext(t, delay, DayOf(Plus(t, -delay)));
    } else {
      AfterMinDelay(t, DayOf(Plus(t, delay)));
    }
  }

  lemma MidnightAfterIsNext(t: Time, delay: int, d: int)
    requires d == DayOf(Plus(t, -delay))
    ensures IsNextDaily(At(d + 1, delay, t.offset).instant, t, delay)
  {
    var x := At(d + 1, delay, t.offset).instant;
    AtIff(x, d + 1, delay, t.offset);
    AfterIff(t, delay, d + 1);
    AfterIff(t, delay, d);
    forall b | DailyBoundary(b, t.offset, delay) && t.instant < b ensures x <= b {
      var k :| AfterMidnight(b, k, delay, t.offset);
      AtIff(b, k, delay, t.offset);
      AfterIff(t, delay, k);
      DaysOrder(d + 1, k, delay, t.offset);
    }
  }

  lemma DaysOrder(j: int, k: int, delay: int, offset: int)
    requires j <= k
    ensures At(j, delay, offset).instant <= At(k, delay, offset).instant
  {
  }

  /** Added instead of taken away, the least delay leads far into the past. */
  lemma AfterMinDelay(t: Time, d: int)
    requires d == DayOf(Plus(t, MIN_INT64))
    ensures At(d + 1, MIN_INT64, t.offset).instant < t.instant
  {
    assert d * DAY <= t.instant + MIN_INT64 + t.offset;
  }

  function MondayOf(n: int): int {
    n - (n + 3) % 7
  }

  lemma StartOfWeekIs(t: Time)
    ensures StartOfWeek(t) == At(MondayOf(DayOf(t)), 0, t.offset)
  {
    var weekday := if Weekday(t) == 0 then 7 else Weekday(t);
    BackToMonday(t, -(weekday - 1));
    ClockInDay(t);
    StartOfDayAt(AddDate(t, 0, 0, -(weekday - 1)), MondayOf(DayOf(t)), ClockOf(t));
  }

  lemma BackToMonday(t: Time, days: int)
    requires days == -((if Weekday(t) == 0 then 7 else Weekday(t)) - 1)
    ensures AddDate(t, 0, 0, days) == At(MondayOf(DayOf(t)), ClockOf(t), t.offset)
  {
    SinceMonday(DayOf(t));
    AddDays(t, days);
  }

  lemma ClockInDay(t: Time)
    ensures 0 <= ClockOf(t) < DAY
  {
  }

  lemma StartOfDayAt(t: Time, n: int, clock: int)
    requires 0 <= clock < DAY && t == At(n, clock, t.offset)
    ensures StartOfDay(t) == At(n, 0, t.offset)
  {
    DayOfAt(n, clock, t.offset);
    StartOfDayIs(t);
  }

  /** Counting Sunday as 7, the weekday is one more than the days since Monday. */
  lemma SinceMonday(n: int)
    ensures var w := (n + 4) % 7; (if w == 0 then 7 else w) - 1 == (n + 3) % 7
  {
  }

  lemma MondayOfIsLatest(n: int, k: int)
    ensures Monday(MondayOf(n)) && MondayOf(n) <= n < MondayOf(n) + 7
    ensures Monday(k) && n < k ==> MondayOf(n) + 7 <= k
    ensures Monday(k) && k <= n ==> k <= MondayOf(n)
  {
  }

  /** The start of the week is the latest Monday midnight not after t. */
  lemma StartOfWeekIsLatest(t: Time)
    ensures var x := StartOfWeek(t).instant;
      && x <= t.instant < x + 7 * DAY
      && WeeklyBoundary(x, t.offset, 0)
      && forall b :: WeeklyBoundary(b, t.offset, 0) && b <= t.instant ==> b <= x
  {
    StartOfWeekIs(t);
    var n := DayOf(t);
    MondayOfIsLatest(n, 0);
    assert t.instant == At(n, ClockOf(t), t.offset).instant;
    AtIff(StartOfWeek(t).instant, MondayOf(n), 0, t.offset);
    AfterIff(t, 0, MondayOf(n));
    AfterIff(t, 0, MondayOf(n) + 7);
    forall b | WeeklyBoundary(b, t.offset, 0) && b <= t.instant ensures b <= StartOfWeek(t).instant {
      var k :| Monday(k) && AfterMidnight(b, k, 0, t.offset);
      AtIff(b, k, 0, t.offset);
      AfterIff(t, 0, k);
      MondayOfIsLatest(n, k);
      DaysOrder(k, MondayOf(n), 0, t.offset);
    }
  }

  lemma NextWeeklyIs(t: Time, delay: int)
    ensures NextWeeklyTime(t, delay).instant == At(MondayOf(DayOf(Plus(t, NegateInt64(delay)))) + 7, delay, t.offset).instant
  {
    var u := Plus(t, NegateInt64(delay));
    StartOfWeekIs(u);
    DayOfAt(MondayOf(DayOf(u)), 0, t.offset);
    AddDays(StartOfWeek(u), 7);
  }

  lemma NextWeeklyIff(t: Time, delay: int)
    requires IsInt64(delay)
    ensures IsNextWeekly(NextWeeklyTime(t, delay).instant, t, delay) <==> delay != MIN_INT64
  {
    NextWeeklyIs(t, delay);
    if delay != MIN_INT64 {
      MondayAfterIsNext(t, delay, DayOf(Plus(t, -delay)));
    } else {
      MondayAfterMin(t, DayOf(Plus(t, delay)));
    }
  }

  lemma MondayAfterIsNext(t: Time, delay: int, d: int)
    requires d == DayOf(Plus(t, -delay))
    ensures IsNextWeekly(At(MondayOf(d) + 7, delay, t.offset).instant, t, delay)
  {
    var n := MondayOf(d) + 7;
    var x := At(n, delay, t.offset).instant;
    MondayOfIsLatest(d, n);
    AtIff(x, n, delay, t.offset);
    AfterIff(t, delay, n);
    AfterIff(t, delay, MondayOf(d));
    forall b | WeeklyBoundary(b, t.offset, delay) && t.instant < b ensures x <= b {
      var k :| Monday(k) && AfterMidnight(b, k, delay, t.offset);
      AtIff(b, k, delay, t.offset);
      AfterIff(t, delay, k);
      MondayOfIsLatest(d, k);
      DaysOrder(n, k, delay, t.offset);
    }
  }

  /** Added instead of taken away, the least delay leads far into the past. */
  lemma MondayAfterMin(t: Time, d: int)
    requires d == DayOf(Plus(t, MIN_INT64))
    ensures At(MondayOf(d) + 7, MIN_INT64, t.offset).instant < t.instant
  {
    MondayOfIsLatest(d, 0);
    assert d * DAY <= t.instant + MIN_INT64 + t.offset;
  }

  // ----- Next monthly time -----

  /** The first of the month after a date's. */
  function NextFirst(c: Date): Date {
    if c.month < 12 then Date(c.year, c.month + 1, 1) else Date(c.year + 1, 1, 1)
  }

  lemma FirstNumber(y: int, m: int)
    requires 1 <= m <= 12
    ensures DayNumber(y, m, 1) == MonthStart(y, m)
  {
    DateNumberIs(Date(y, m, 1));
  }

  lemma NextFirstNumber(c: Date)
    requires 1 <= c.month <= 12
    ensures IsDate(NextFirst(c))
    ensures DateNumber(NextFirst(c)) == MonthStart(c.year, c.month + 1)
  {
    FirstNumber(NextFirst(c).year, NextFirst(c).month);
    if c.month == 12 { YearEnd(c.year); }
  }

  /** time.Date carries month 13 into the next year. */
  lemma MonthCarries(c: Date)
    requires 1 <= c.month <= 12
    ensures DayNumber(c.year, c.month + 1, 1) == MonthStart(c.year, c.month + 1)
  {
    if c.month < 12 {
      FirstNumber(c.year, c.month + 1);
    } else {
      assert (c.month + 1 - 1) / 12 == 1 && (c.month + 1 - 1) % 12 == 0;
      YearEnd(c.year);
    }
  }

  /** The number of the first day of the month after the one day n is in. */
  function NextMonthDay(n: int): int {
    DateNumber(NextFirst(DateOf(n)))
  }

  /** Every first of a month is at or before this month's, or at or after the next one's. */
  lemma NoFirstBetween(c: Date, f: Date)
    requires IsDate(c) && IsDate(f) && f.day == 1
    ensures DateNumber(f) <= DateNumber(c) || MonthStart(c.year, c.month + 1) <= DateNumber(f)
  {
    if EarlierMonth(f, c) {
      MonthsApart(f, c);
    } else if EarlierMonth(c, f) {
      MonthsApart(c, f);
    } else {
      DateNumberIs(c);
      DateNumberIs(f);
    }
  }

  lemma MonthAtMost31(c: Date)
    requires IsDate(c)
    ensures MonthStart(c.year, c.month + 1) <= DateNumber(c) + 31
  {
    DateNumberIs(c);
    MonthLength(IsLeap(c.year), c.year, c.month);
  }

  /** Nothing between day n and the next first of a month is a first of a month. */
  lemma NextMonthDayIsNext(n: int, k: int)
    ensures DateOf(NextMonthDay(n)).day == 1
    ensures n < NextMonthDay(n) <= n + 31
    ensures DateOf(k).day == 1 && n < k ==> NextMonthDay(n) <= k
  {
    var c, f := DateOf(n), DateOf(k);
    NumberOfDate(n);
    NumberOfDate(k);
    InMonth(c);
    NextFirstNumber(c);
    MonthAtMost31(c);
    DateOfNumber(NextFirst(c), NextMonthDay(n));
    if f.day == 1 { NoFirstBetween(c, f); }
  }

  lemma StartOfMonthIs(t: Time)
    ensures var c := DateOf(DayOf(t)); 1 <= c.month <= 12 && StartOfMonth(t) == At(MonthStart(c.year, c.month), 0, t.offset)
    ensures DateOf(DayOf(StartOfMonth(t))) == DateOf(DayOf(t)).(day := 1)
  {
    var c := DateOf(DayOf(t));
    NumberOfDate(DayOf(t));
    FirstNumber(c.year, c.month);
    DayOfAt(MonthStart(c.year, c.month), 0, t.offset);
    DateOfNumber(c.(day := 1), MonthStart(c.year, c.month));
  }

  lemma NextMonthlyIs(t: Time, delay: int)
    ensures NextMonthlyTime(t, delay).instant == At(NextMonthDay(DayOf(Plus(t, NegateInt64(delay)))), delay, t.offset).instant
  {
    var u := Plus(t, NegateInt64(delay));
    StartOfMonthIs(u);
    var c := DateOf(DayOf(u));
    DayOfAt(MonthStart(c.year, c.month), 0, t.offset);
    MonthCarries(c);
    NextFirstNumber(c);
  }

  /** The next monthly time is the least first-of-a-month midnight plus delay after t, with the
      same single exception. */
  lemma NextMonthlyIff(t: Time, delay: int)
    requires IsInt64(delay)
    ensures IsNextMonthly(NextMonthlyTime(t, delay).instant, t, delay) <==> delay != MIN_INT64
  {
    NextMonthlyIs(t, delay);
    if delay != MIN_INT64 {
      FirstAfterIsNext(t, delay, DayOf(Plus(t, -delay)));
    } else {
      FirstAfterMin(t, DayOf(Plus(t, delay)));
    }
  }

  lemma FirstAfterIsNext(t: Time, delay: int, d: int)
    requires d == DayOf(Plus(t, -delay))
    ensures IsNextMonthly(At(NextMonthDay(d), delay, t.offset).instant, t, delay)
  {
    var n := NextMonthDay(d);
    var x := At(n, delay, t.offset).instant;
    NextMonthDayIsNext(d, 0);
    AtIff(x, n, delay, t.offset);
    AfterIff(t, delay, n);
    AfterIff(t, delay, d);
    forall b | MonthlyBoundary(b, t.offset, delay) && t.instant < b ensures x <= b {
      var k :| DateOf(k).day == 1 && AfterMidnight(b, k, delay, t.offset);
      AtIff(b, k, delay, t.offset);
      AfterIff(t, delay, k);
      NextMonthDayIsNext(d, k);
      DaysOrder(n, k, delay, t.offset);
    }
  }

  lemma FirstAfterMin(t: Time, d: int)
    requires d == DayOf(Plus(t, MIN_INT64))
    ensures At(NextMonthDay(d), MIN_INT64, t.offset).instant < t.instant
  {
    NextMonthDayIsNext(d, 0);
    DaysOrder(NextMonthDay(d), d + 31, MIN_INT64, t.offset);
    assert d * DAY <= t.instant + MIN_INT64 + t.offset;
  }

  /** AddDate with one month counts the day of the month on from the first of the next. */
  lemma DayAMonthOn(t: Time, c: Date, e: Date)
    requires c == DateOf(DayOf(t)) && IsDate(c) && e == NextFirst(c).(day := c.day)
    ensures DayOf(AddDate(t, 0, 1, 0)) == DateNumber(e)
  {
    MonthCarries(c);
    NextFirstNumber(c);
    DaysAdd(c.year, c.month + 1, 1, c.day - 1);
    DaysAdd(e.year, e.month, 1, c.day - 1);
    DayOfAt(DayNumber(c.year, c.month + 1, c.day), ClockOf(t), t.offset);
  }

  lemma IsDateOfNumber(n: int, e: Date)
    requires n == DateNumber(e)
    ensures DateOf(n) == e <==> IsDate(e)
  {
    NumberOfDate(n);
    if IsDate(e) { DateOfNumber(e, n); }
  }

  /** Going one month on keeps the day of the month exactly when the next month has that day;
      from a first of a month, as NextMonthlyTime does, it always has. */
  lemma AddMonthKeepsDayIff(t: Time)
    ensures var c := DateOf(DayOf(t));
      var e := NextFirst(c).(day := c.day);
      DateOf(DayOf(AddDate(t, 0, 1, 0))) == e <==> c.day <= DaysIn(e.year, e.month)
  {
    var c := DateOf(DayOf(t));
    var e := NextFirst(c).(day := c.day);
    NumberOfDate(DayOf(t));
    DayAMonthOn(t, c, e);
    IsDateOfNumber(DateNumber(e), e);
  }
}

/** Kernel/Source/Time/BcdToUnix.c: between calendar dates and seconds since 1970. */
module Calendar {
  import opened Arith

  const DAY: nat := 86400
  const UINT32: nat := 0x1_0000_0000

  datatype DateTime = DateTime(year: nat, month: nat, day: nat, hour: nat, minute: nat, second: nat)

  predicate IsLeap(year: nat) {
    year % 400 == 0 || (year % 4 == 0 && year % 100 != 0)
  }

  function DaysInMonth(year: nat, month: nat): (d: nat)
    requires 1 <= month <= 12
    ensures 28 <= d <= 31
  {
    if month == 2 && IsLeap(year) then 29
    else [31, 28, 31, 30, 31, 30, 31, 31, 30, 31, 30, 31][month - 1]
  }

  function DaysInYear(year: nat): nat {
    if IsLeap(year) then 366 else 365
  }

  /** A date of the Gregorian calendar from 1970 on. */
  predicate Valid(t: DateTime) {
    && 1970 <= t.year && 1 <= t.month <= 12 && 1 <= t.day <= DaysInMonth(t.year, t.month)
    && t.hour < 24 && t.minute < 60 && t.second < 60
  }

  /** The days of the years from 1970 up to that year. */
  function DaysBeforeYear(year: nat): nat
    decreases year
  {
    if year <= 1970 then 0 else DaysBeforeYear(year - 1) + DaysInYear(year - 1)
  }

  function DaysBeforeMonth(year: nat, month: nat): nat
    requires 1 <= month <= 13
    decreases month
  {
    if month == 1 then 0 else DaysBeforeMonth(year, month - 1) + DaysInMonth(year, month - 1)
  }

  function Seconds(t: DateTime): nat
    requires 1 <= t.month <= 12 && t.day >= 1
  {
    (DaysBeforeYear(t.year) + DaysBeforeMonth(t.year, t.month) + (t.day - 1)) * DAY
    + t.hour * 3600 + t.minute * 60 + t.second
  }

  // ---- The order of dates ----

  predicate DayBefore(a: DateTime, b: DateTime) {
    a.year < b.year || (a.year == b.year && (a.month < b.month || (a.month == b.month && a.day < b.day)))
  }

  predicate SameDay(a: DateTime, b: DateTime) {
    a.year == b.year && a.month == b.month && a.day == b.day
  }

  /** Calendar order. */
  predicate Before(a: DateTime, b: DateTime) {
    || DayBefore(a, b)
    || (SameDay(a, b) && a.hour < b.hour)
    || (SameDay(a, b) && a.hour == b.hour && a.minute < b.minute)
    || (SameDay(a, b) && a.hour == b.hour && a.minute == b.minute && a.second < b.second)
  }

  function DayNumber(t: DateTime): nat
    requires 1 <= t.month <= 12 && t.day >= 1
  {
    DaysBeforeYear(t.year) + DaysBeforeMonth(t.year, t.month) + (t.day - 1)
  }

  lemma {:induction false} YearsAddUp(a: nat, b: nat)
    requires 1970 <= a < b
    ensures DaysBeforeYear(a) + DaysInYear(a) <= DaysBeforeYear(b)
    decreases b
  {
    if a < b - 1 { YearsAddUp(a, b - 1); }
  }

  lemma {:induction false} MonthsAddUp(year: nat, a: nat, b: nat)
    requires 1 <= a < b <= 13
    ensures DaysBeforeMonth(year, a) + DaysInMonth(year, a) <= DaysBeforeMonth(year, b)
    decreases b
  {
    if a < b - 1 { MonthsAddUp(year, a, b - 1); }
  }

  /** Twelve months make a year. */
  lemma MonthsMakeAYear(year: nat)
    ensures DaysBeforeMonth(year, 13) == DaysInYear(year)
  {
    LastQuarter(year);
  }

  lemma DaysIncrease(a: DateTime, b: DateTime)
    requires Valid(a) && Valid(b) && DayBefore(a, b)
    ensures DayNumber(a) < DayNumber(b)
  {
    if a.year < b.year {
      YearsAddUp(a.year, b.year);
      MonthsAddUp(a.year, a.month, 13);
      MonthsMakeAYear(a.year);
    } else if a.month < b.month {
      MonthsAddUp(a.year, a.month, b.month);
    }
  }

  /** TimeToUnix is strictly increasing in calendar order, and so no two dates share a number. */
  lemma SecondsFollowTheCalendar(a: DateTime, b: DateTime)
    requires Valid(a) && Valid(b)
    ensures Before(a, b) <==> Seconds(a) < Seconds(b)
    ensures a == b <==> Seconds(a) == Seconds(b)
  {
    if DayBefore(a, b) {
      DaysIncrease(a, b);
    } else if DayBefore(b, a) {
      DaysIncrease(b, a);
    }
  }

  // ---- A definition without loops ----

  /** The leap years before a year, by the rule of the Gregorian calendar. */
  function LeapYearsBefore(year: nat): int {
    (year - 1) / 4 - (year - 1) / 100 + (year - 1) / 400
  }

  lemma {:induction false} DaysByTheRule(year: nat)
    requires year >= 1970
    ensures DaysBeforeYear(year) == 365 * (year - 1970) + LeapYearsBefore(year) - LeapYearsBefore(1970)
    decreases year
  {
    if year > 1970 {
      DaysByTheRule(year - 1);
      OneMoreLeapYear(year - 1);
    }
  }

  lemma OneMoreLeapYear(year: nat)
    requires year > 0
    ensures LeapYearsBefore(year + 1) == LeapYearsBefore(year) + if IsLeap(year) then 1 else 0
  {
    QuotientStep(year, 4);
    QuotientStep(year, 100);
    QuotientStep(year, 400);
    Multiples(year);
  }

  /** The days of a year before a month, by a formula that knows no month by name. */
  function MonthStart(year: nat, month: nat): int {
    (367 * month - 362) / 12 - if month <= 2 then 0 else 2 - (LeapYearsBefore(year + 1) - LeapYearsBefore(year))
  }

  /** Where each month starts, and where the year ends. */
  lemma MonthsByTheRule(year: nat, month: nat)
    requires year > 0 && 1 <= month <= 13
    ensures DaysBeforeMonth(year, month) == MonthStart(year, month)
    ensures month <= 12 ==> DaysInMonth(year, month) == MonthStart(year, month + 1) - MonthStart(year, month)
  {
    hide LeapYearsBefore;
    OneMoreLeapYear(year);
    FirstQuarter(year);
    MiddleMonths(year);
    LastQuarter(year);
    FormulaValues(month);
    FormulaValues(month + 1);
  }

  lemma FormulaValues(m: nat)
    requires 1 <= m <= 14
    ensures (367 * m - 362) / 12 == [0, 31, 61, 92, 122, 153, 183, 214, 245, 275, 306, 336, 367, 398][m - 1]
  {
  }

  lemma FirstQuarter(year: nat)
    ensures DaysBeforeMonth(year, 1) == 0 && DaysBeforeMonth(year, 2) == 31
    ensures var leap := if IsLeap(year) then 1 else 0;
      && DaysBeforeMonth(year, 3) == 59 + leap && DaysBeforeMonth(year, 4) == 90 + leap
      && DaysBeforeMonth(year, 5) == 120 + leap
  {
    assert DaysBeforeMonth(year, 2) == 31;
    assert DaysBeforeMonth(year, 3) == 59 + if IsLeap(year) then 1 else 0;
  }

  lemma MiddleMonths(year: nat)
    ensures var leap := if IsLeap(year) then 1 else 0;
      && DaysBeforeMonth(year, 6) == 151 + leap && DaysBeforeMonth(year, 7) == 181 + leap
      && DaysBeforeMonth(year, 8) == 212 + leap && DaysBeforeMonth(year, 9) == 243 + leap
  {
    FirstQuarter(year);
    assert DaysBeforeMonth(year, 7) == 181 + if IsLeap(year) then 1 else 0;
  }

  lemma LastQuarter(year: nat)
    ensures var leap := if IsLeap(year) then 1 else 0;
      && DaysBeforeMonth(year, 10) == 273 + leap && DaysBeforeMonth(year, 11) == 304 + leap
      && DaysBeforeMonth(year, 12) == 334 + leap && DaysBeforeMonth(year, 13) == 365 + leap
  {
    MiddleMonths(year);
    assert DaysBeforeMonth(year, 11) == 304 + if IsLeap(year) then 1 else 0;
  }

  /** The seconds of a date without a loop or a table. */
  function UnixByTheRule(t: DateTime): int {
    var days := 365 * (t.year - 1970) + LeapYearsBefore(t.year) - LeapYearsBefore(1970) + MonthStart(t.year, t.month);
    (days + (t.day - 1)) * 86400 + t.hour * 3600 + t.minute * 60 + t.second
  }

  lemma SecondsByTheRule(t: DateTime)
    requires t.year >= 1970 && 1 <= t.month <= 12 && t.day >= 1
    ensures Seconds(t) == UnixByTheRule(t)
  {
    hide LeapYearsBefore, MonthStart;
    DaysByTheRule(t.year);
    MonthsByTheRule(t.year, t.month);
  }

  lemma Multiples(x: nat)
    ensures x % 400 == 0 ==> x % 100 == 0
    ensures x % 100 == 0 ==> x % 4 == 0
  {
    if x % 400 == 0 { DivUnique(x, 100, x / 400 * 4, 0); }
    if x % 100 == 0 { DivUnique(x, 4, x / 100 * 25, 0); }
  }

  lemma QuotientStep(x: nat, k: nat)
    requires x > 0 && k > 1
    ensures x / k == (x - 1) / k + if x % k == 0 then 1 else 0
  {
    var q, r := x / k, x % k;
    assert x == q * k + r;
    if r == 0 {
      MulSub(q, 1, k);
      DivUnique(x - 1, k, q - 1, k - 1);
    } else {
      DivUnique(x - 1, k, q, r - 1);
    }
  }

  // ---- The two conversions ----

  method TimeToUnix(t: DateTime) returns (u: nat)
    requires 1 <= t.month <= 12 && t.day >= 1
    ensures u == Seconds(t)
    ensures t.year >= 1970 ==> u == UnixByTheRule(t)
  {
    if t.year >= 1970 { SecondsByTheRule(t); }
    var days := 0;
    var y := 1970;
    while y < t.year
      invariant 1970 <= y && (y <= t.year || y == 1970) && days == DaysBeforeYear(y)
    {
      days := days + if IsLeap(y) then 366 else 365;
      y := y + 1;
    }
    assert days == DaysBeforeYear(t.year);
    for m := 1 to t.month
      invariant days == DaysBeforeYear(t.year) + DaysBeforeMonth(t.year, m)
    {
      days := days + DaysInMonth(t.year, m);
    }
    days := days + (t.day - 1);
    return days * DAY + t.hour * 3600 + t.minute * 60 + t.second;
  }

  /** The loops of UnixToTime: the date of a day. */
  method DateOfDay(day: nat) returns (year: nat, month: nat, dayOfMonth: nat)
    ensures 1970 <= year && 1 <= month <= 12 && 1 <= dayOfMonth <= DaysInMonth(year, month)
    ensures DaysBeforeYear(year) + DaysBeforeMonth(year, month) + (dayOfMonth - 1) == day
  {
    hide IsLeap, DaysInMonth;
    var days: nat := day;
    year := 1970;
    while days >= if IsLeap(year) then 366 else 365
      invariant year >= 1970 && days + DaysBeforeYear(year) == day
      decreases days
    {
      days := days - if IsLeap(year) then 366 else 365;
      year := year + 1;
    }
    month := 1;
    MonthsMakeAYear(year);
    while month <= 12
      invariant 1 <= month <= 13 && days < DaysInYear(year) - DaysBeforeMonth(year, month)
      invariant days + DaysBeforeMonth(year, month) + DaysBeforeYear(year) == day
      decreases 13 - month
    {
      var dim := DaysInMonth(year, month);
      if days < dim { break; }
      days := days - dim;
      month := month + 1;
    }
    dayOfMonth := days + 1;
  }

  /** The number of days is cut to 32 bits: the date is right for exactly the times whose day number fits. */
  method UnixToTime(u: nat) returns (t: DateTime)
    ensures Valid(t)
    ensures Seconds(t) == UnixByTheRule(t) == (u / DAY % UINT32) * DAY + u % DAY
    ensures Seconds(t) == u <==> u / DAY < UINT32
  {
    hide UnixByTheRule, DaysBeforeYear, DaysBeforeMonth, DaysInMonth;
    var days, rem := u / DAY % UINT32, u % DAY;
    var year, month, day := DateOfDay(days);
    t := DateTime(year, month, day, rem / 3600, (rem % 3600) / 60, rem % 60);
    ClockSplits(rem);
    CutDays(u);
    SecondsByTheRule(t);
  }

  lemma CutDays(u: nat)
    ensures (u / DAY % UINT32) * DAY + u % DAY == u <==> u / DAY < UINT32
  {
    assert u == u / DAY * DAY + u % DAY;
  }

  lemma ClockSplits(rem: nat)
    requires rem < DAY
    ensures rem / 3600 < 24 && (rem % 3600) / 60 < 60
    ensures rem / 3600 * 3600 + (rem % 3600) / 60 * 60 + rem % 60 == rem
  {
    assert rem == rem / 3600 * 3600 + rem % 3600;
    assert rem % 3600 % 60 == rem % 60;
  }

  /** Seconds to date and back, for every time whose day number fits in 32 bits. */
  method ThereAndBack(u: nat) returns (v: nat)
    ensures v == u <==> u / DAY < UINT32
  {
    var t := UnixToTime(u);
    v := TimeToUnix(t);
  }

  /** Date to seconds and back: the identity on exactly the dates whose day number fits in 32 bits. */
  method BackAndThere(t: DateTime) returns (r: DateTime)
    requires Valid(t)
    ensures r == t <==> DayNumber(t) < UINT32
  {
    var u := TimeToUnix(t);
    DayOfSeconds(t);
    r := UnixToTime(u);
    SecondsFollowTheCalendar(r, t);
  }

  lemma DayOfSeconds(t: DateTime)
    requires Valid(t)
    ensures Seconds(t) / DAY == DayNumber(t)
  {
    DivUnique(Seconds(t), DAY, DayNumber(t), t.hour * 3600 + t.minute * 60 + t.second);
  }
}

/**
  The proleptic Gregorian calendar as the JavaScript Date object sees it.

  Month lengths follow the table of section 5.7 of RFC 3339 and the leap-year
  rule of its Appendix C. Day numbers (days since 1 January 1970) follow the
  DayFromYear formula of section 21.4.1 of ECMA-262, so that weekdays and
  instant comparisons agree with the Date object. Months are 0-based
  (0 = January), as `Date.prototype.getMonth` returns them.
 */
module Gregorian {

  /** Appendix C of RFC 3339: divisible by 4, and not by 100 unless by 400. */
  predicate IsLeapYear(year: int) {
    year % 4 == 0 && (year % 100 != 0 || year % 400 == 0)
  }

  /** The month-length table of section 5.7 of RFC 3339, indexed by 0-based month. */
  function DaysInMonth(year: int, month: int): (n: int)
    requires 0 <= month < 12
    ensures 28 <= n <= 31
    ensures n == 29 <==> month == 1 && IsLeapYear(year)
  {
    if month == 1 then (if IsLeapYear(year) then 29 else 28)
    else if month == 3 || month == 5 || month == 8 || month == 10 then 30
    else 31
  }

  function DaysInYear(year: int): int {
    if IsLeapYear(year) then 366 else 365
  }

  /** ECMA-262 DayFromYear: the day number of 1 January of `year`. Dafny's
      division by a positive constant rounds down, as the standard's floor does. */
  function DayFromYear(year: int): int {
    365 * (year - 1970) + (year - 1969) / 4 - (year - 1901) / 100 + (year - 1601) / 400
  }

  /** Days of `year` before the 1st of `month`: the cumulative table that
      ECMA-262 MonthFromTime is written against, with the leap day after February. */
  function DaysBeforeMonth(year: int, month: int): int
    requires 0 <= month <= 12
  {
    var cumulative := [0, 31, 59, 90, 120, 151, 181, 212, 243, 273, 304, 334, 365];
    cumulative[month] + (if month >= 2 && IsLeapYear(year) then 1 else 0)
  }

  /** A calendar date: a year, a 0-based month and a 1-based day-of-month. */
  datatype CivilDate = CivilDate(year: int, month: int, day: int) {
    predicate Valid() {
      0 <= month < 12 && 1 <= day <= DaysInMonth(year, month)
    }
  }

  /** Days since 1 January 1970 of day `day` of the given month; `day` may lie
      outside the month, which counts on past its end or back before its start. */
  function DayNumber(year: int, month: int, day: int): int
    requires 0 <= month < 12
  {
    DayFromYear(year) + DaysBeforeMonth(year, month) + day - 1
  }

  function DayNumberOf(d: CivilDate): int
    requires 0 <= d.month < 12
  {
    DayNumber(d.year, d.month, d.day)
  }

  /** A month counted from year 0, so that months compare as integers. */
  function MonthIndex(year: int, month: int): int {
    12 * year + month
  }

  /** Lexicographic (year, month, day) order: the order of the calendar. */
  predicate Before(a: CivilDate, b: CivilDate) {
    a.year < b.year
    || (a.year == b.year && a.month < b.month)
    || (a.year == b.year && a.month == b.month && a.day < b.day)
  }

  /** ECMA-262 WeekDay: 1 January 1970 was a Thursday, 0 is Sunday. */
  function WeekdayOfDayNumber(dayNumber: int): (w: int)
    ensures 0 <= w < 7
  {
    (dayNumber + 4) % 7
  }

  // ----- Lemmas -----

  /** DayFromYear counts exactly the days of each year: the anchor and the step. */
  lemma DayFromYearStep(year: int)
    ensures DayFromYear(1970) == 0
    ensures DayFromYear(year + 1) == DayFromYear(year) + DaysInYear(year)
  {
    assert (year + 1 - 1969) / 4 - (year - 1969) / 4 == if year % 4 == 0 then 1 else 0;
    assert (year + 1 - 1901) / 100 - (year - 1901) / 100 == if year % 100 == 0 then 1 else 0;
    assert (year + 1 - 1601) / 400 - (year - 1601) / 400 == if year % 400 == 0 then 1 else 0;
  }

  /** The cumulative table agrees with the month-length table, month by month,
      and a year is the sum of its months. */
  lemma DaysBeforeMonthStep(year: int, month: int)
    requires 0 <= month < 12
    ensures DaysBeforeMonth(year, month + 1) == DaysBeforeMonth(year, month) + DaysInMonth(year, month)
    ensures DaysBeforeMonth(year, 12) == DaysInYear(year)
  {
  }

  /** The day after the last day of a month is the 1st of the next month. */
  lemma NextMonthStart(year: int, month: int)
    requires 0 <= month < 12
    ensures var len := DaysInMonth(year, month);
      if month < 11 then DayNumber(year, month + 1, 1) == DayNumber(year, month, len + 1)
      else DayNumber(year + 1, 0, 1) == DayNumber(year, month, len + 1)
  {
    DaysBeforeMonthStep(year, month);
    DayFromYearStep(year);
  }

  /** Every later year starts at least a full year later. */
  lemma {:induction false} DayFromYearMonotone(y1: int, y2: int)
    requires y1 < y2
    ensures DayFromYear(y1) + DaysInYear(y1) <= DayFromYear(y2)
    decreases y2 - y1
  {
    DayFromYearStep(y1);
    if y1 + 1 < y2 {
      DayFromYearMonotone(y1 + 1, y2);
    }
  }

  /** A valid date lies within its year's span of day numbers. */
  lemma DayNumberWithinYear(d: CivilDate)
    requires d.Valid()
    ensures DayFromYear(d.year) <= DayNumberOf(d) < DayFromYear(d.year) + DaysInYear(d.year)
  {
    DaysBeforeMonthStep(d.year, d.month);
    if d.month < 11 {
      DaysBeforeMonthBelowYear(d.year, d.month + 1);
    }
  }

  lemma DaysBeforeMonthBelowYear(year: int, month: int)
    requires 0 <= month <= 12
    ensures DaysBeforeMonth(year, month) <= DaysInYear(year)
  {
  }

  /** Day numbers follow the calendar order: on valid dates, a smaller day
      number means an earlier date and equal day numbers mean the same date. */
  lemma DayNumberOrder(a: CivilDate, b: CivilDate)
    requires a.Valid() && b.Valid()
    ensures Before(a, b) <==> DayNumberOf(a) < DayNumberOf(b)
    ensures a == b <==> DayNumberOf(a) == DayNumberOf(b)
  {
    DayNumberWithinYear(a);
    DayNumberWithinYear(b);
    if a.year < b.year {
      DayFromYearMonotone(a.year, b.year);
    } else if b.year < a.year {
      DayFromYearMonotone(b.year, a.year);
    } else if a.month < b.month {
      DaysBeforeMonthStep(a.year, a.month);
      DaysBeforeMonthMonotone(a.year, a.month + 1, b.month);
    } else if b.month < a.month {
      DaysBeforeMonthStep(a.year, b.month);
      DaysBeforeMonthMonotone(a.year, b.month + 1, a.month);
    }
  }

  lemma DaysBeforeMonthMonotone(year: int, m1: int, m2: int)
    requires 0 <= m1 <= m2 <= 12
    ensures DaysBeforeMonth(year, m1) <= DaysBeforeMonth(year, m2)
  {
  }

  /** A date earlier than the 1st of a month has a smaller day number, so its
      month index is smaller exactly when its day number is. */
  lemma MonthIndexOrder(d: CivilDate, year: int, month: int)
    requires d.Valid() && 0 <= month < 12
    ensures MonthIndex(d.year, d.month) < MonthIndex(year, month)
        <==> DayNumberOf(d) < DayNumber(year, month, 1)
  {
    DayNumberOrder(d, CivilDate(year, month, 1));
  }

  /** The 1st of the next month falls `DaysInMonth` weekdays later: the weekday
      cycle the month view's leading placeholders rely on. */
  lemma WeekdayOfNextMonth(year: int, month: int)
    requires 0 <= month < 12
    ensures var next := if month < 11 then DayNumber(year, month + 1, 1) else DayNumber(year + 1, 0, 1);
      WeekdayOfDayNumber(next)
        == (WeekdayOfDayNumber(DayNumber(year, month, 1)) + DaysInMonth(year, month)) % 7
  {
    NextMonthStart(year, month);
    var start := DayNumber(year, month, 1);
    ModSevenShift(start + 4, DaysInMonth(year, month));
  }

  lemma ModSevenShift(x: int, k: int)
    ensures (x % 7 + k) % 7 == (x + k) % 7
  {
    var q := x / 7;
    assert x == 7 * q + x % 7;
    assert x + k == 7 * q + (x % 7 + k);
  }

}

/**
  The parts of the JavaScript Date object the calendar relies on, in local
  time: the `new Date(year, month, day)` constructor with its normalisation of
  out-of-range months and days (ECMA-262 MakeDay), `setMonth`, `setHours(0, 0,
  0, 0)`, `getDay` and the `<=` / `>` comparisons of time values.

  Local time is modelled as a uniform timeline: a time value is the local day
  number times the length of a day plus the milliseconds since local midnight.
 */
module JsDate {
  import opened Gregorian

  const MsPerDay: int := 86400000

  /** A Date object read through its local-time getters. */
  datatype LocalDateTime = LocalDateTime(date: CivilDate, timeOfDay: int) {
    predicate Valid() {
      date.Valid() && 0 <= timeOfDay < MsPerDay
    }
  }

  /** ECMA-262 MakeDay: the month is reduced modulo 12 into the year, and the
      day counts on from the 1st of that month, whatever its sign or size. */
  function MakeDay(year: int, month: int, day: int): int {
    DayNumber(year + month / 12, month % 12, day)
  }

  /** `new Date(year, month, day)` before the time of day: the month is
      reduced into the year, surplus days roll into the following months, and
      day 0 and below roll back into the preceding ones. */
  function Normalize(year: int, month: int, day: int): (r: CivilDate)
    ensures r.Valid()
    decreases if day < 1 then 32 - day else day
  {
    var y := year + month / 12;
    var m := month % 12;
    if day < 1 then
      var py := if m == 0 then y - 1 else y;
      var pm := if m == 0 then 11 else m - 1;
      Normalize(py, pm, day + DaysInMonth(py, pm))
    else if day <= DaysInMonth(y, m) then
      CivilDate(y, m, day)
    else
      Normalize(y, m + 1, day - DaysInMonth(y, m))
  }

  /** The normalised date is the one ECMA-262 MakeDay names: its day number
      is MakeDay(year, month, day). */
  lemma {:induction false} NormalizeDayNumber(year: int, month: int, day: int)
    ensures DayNumberOf(Normalize(year, month, day)) == MakeDay(year, month, day)
    decreases if day < 1 then 32 - day else day
  {
    var y := year + month / 12;
    var m := month % 12;
    MakeDayInYear(year, month, day);
    if day < 1 {
      var py := if m == 0 then y - 1 else y;
      var pm := if m == 0 then 11 else m - 1;
      assert Normalize(year, month, day) == Normalize(py, pm, day + DaysInMonth(py, pm));
      NormalizeDayNumber(py, pm, day + DaysInMonth(py, pm));
      StepBack(y, m, day);
    } else if day > DaysInMonth(y, m) {
      assert Normalize(year, month, day) == Normalize(y, m + 1, day - DaysInMonth(y, m));
      NormalizeDayNumber(y, m + 1, day - DaysInMonth(y, m));
      StepForward(y, m, day);
    } else {
      assert Normalize(year, month, day) == CivilDate(y, m, day);
    }
  }

  /** Counting back from the 1st of a month is counting on from the previous month. */
  lemma StepBack(y: int, m: int, day: int)
    requires 0 <= m < 12
    ensures var py := if m == 0 then y - 1 else y;
      var pm := if m == 0 then 11 else m - 1;
      MakeDay(py, pm, day + DaysInMonth(py, pm)) == DayNumber(y, m, day)
  {
    var py := if m == 0 then y - 1 else y;
    var pm := if m == 0 then 11 else m - 1;
    MakeDayInYear(py, pm, day + DaysInMonth(py, pm));
    NextMonthStart(py, pm);
  }

  /** Counting past the end of a month is counting on from the next month. */
  lemma StepForward(y: int, m: int, day: int)
    requires 0 <= m < 12
    ensures MakeDay(y, m + 1, day - DaysInMonth(y, m)) == DayNumber(y, m, day)
  {
    MakeDayInYear(y, m + 1, day - DaysInMonth(y, m));
    NextMonthStart(y, m);
  }

  /** MakeDay of a month 0..12: month 12 is January of the following year. */
  lemma MakeDayInYear(year: int, month: int, day: int)
    ensures 0 <= month < 12 ==> MakeDay(year, month, day) == DayNumber(year, month, day)
    ensures month == 12 ==> MakeDay(year, month, day) == DayNumber(year + 1, 0, day)
    ensures MakeDay(year, month, day) == DayNumber(year + month / 12, month % 12, day)
  {
  }

  /** `new Date(year, month, day)`: years 0 to 99 stand for 1900 to 1999. */
  function FullYear(year: int): int {
    if 0 <= year <= 99 then 1900 + year else year
  }

  function NewDate(year: int, month: int, day: int): (r: LocalDateTime)
    ensures r.Valid() && r.timeOfDay == 0
  {
    LocalDateTime(Normalize(FullYear(year), month, day), 0)
  }

  /** The ECMA-262 time value, on the local timeline. */
  function TimeValue(t: LocalDateTime): int
    requires t.Valid()
  {
    DayNumberOf(t.date) * MsPerDay + t.timeOfDay
  }

  /** `setMonth(month)`: keeps the year, the day-of-month and the time of day,
      and normalises like the constructor (no two-digit-year mapping). */
  function SetMonth(t: LocalDateTime, month: int): (r: LocalDateTime)
    requires t.Valid()
    ensures r.Valid() && r.timeOfDay == t.timeOfDay
  {
    LocalDateTime(Normalize(t.date.year, month, t.date.day), t.timeOfDay)
  }

  /** `setHours(0, 0, 0, 0)`: local midnight of the same day. */
  function StartOfDay(t: LocalDateTime): (r: LocalDateTime)
    requires t.Valid()
    ensures r.Valid() && r.date == t.date && r.timeOfDay == 0
  {
    t.(timeOfDay := 0)
  }

  /** `getDay()`: 0 is Sunday. */
  function GetDay(t: LocalDateTime): (w: int)
    requires t.Valid()
    ensures 0 <= w < 7
  {
    WeekdayOfDayNumber(DayNumberOf(t.date))
  }

  // ----- Lemmas -----

  /** A date that is already valid is left alone by the normalisation, and a
      valid date is the only one with its day number. */
  lemma NormalizeValid(d: CivilDate)
    requires d.Valid()
    ensures Normalize(d.year, d.month, d.day) == d
  {
    var r := Normalize(d.year, d.month, d.day);
    NormalizeDayNumber(d.year, d.month, d.day);
    MakeDayInYear(d.year, d.month, d.day);
    DayNumberOrder(r, d);
  }

  /** The month is reduced into the year before anything else. */
  lemma NormalizeReducesMonth(year: int, month: int, day: int)
    ensures Normalize(year, month, day) == Normalize(year + month / 12, month % 12, day)
  {
    var y := year + month / 12;
    var m := month % 12;
    assert y + m / 12 == y && m % 12 == m;
  }

  /** Normalising a day 1..31 of a month either keeps it, when the month is
      long enough, or moves the surplus into the next month; the day never grows. */
  lemma NormalizeOverflow(year: int, month: int, day: int)
    requires 0 <= month < 12 && 1 <= day <= 31
    ensures var r := Normalize(year, month, day);
      var len := DaysInMonth(year, month);
      if day <= len then r == CivilDate(year, month, day)
      else if month < 11 then r == CivilDate(year, month + 1, day - len)
      else r == CivilDate(year + 1, 0, day - len)
    ensures Normalize(year, month, day).day <= day
  {
    var len := DaysInMonth(year, month);
    var r := Normalize(year, month, day);
    NormalizeDayNumber(year, month, day);
    MakeDayInYear(year, month, day);
    if day > len {
      var expected := if month < 11 then CivilDate(year, month + 1, day - len) else CivilDate(year + 1, 0, day - len);
      NextMonthStart(year, month);
      assert expected.Valid();
      DayNumberOrder(r, expected);
    } else {
      DayNumberOrder(r, CivilDate(year, month, day));
    }
  }

  /** Day 0 of the next month is the last day of this one. */
  lemma DayZeroOfNextMonth(year: int, month: int)
    requires 0 <= month < 12
    ensures Normalize(year, month + 1, 0) == CivilDate(year, month, DaysInMonth(year, month))
  {
    var last := CivilDate(year, month, DaysInMonth(year, month));
    NextMonthStart(year, month);
    NormalizeDayNumber(year, month + 1, 0);
    MakeDayInYear(year, month + 1, 0);
    DayNumberOrder(Normalize(year, month + 1, 0), last);
  }

  /** `setMonth` lands on the day that MakeDay names for the kept year and
      day-of-month and the new month, carrying any overflow. */
  lemma SetMonthDayNumber(t: LocalDateTime, month: int)
    requires t.Valid()
    ensures DayNumberOf(SetMonth(t, month).date) == MakeDay(t.date.year, month, t.date.day)
  {
    NormalizeDayNumber(t.date.year, month, t.date.day);
  }

  /** Time values follow the calendar order of the dates and then the time of day. */
  lemma TimeValueOrder(a: LocalDateTime, b: LocalDateTime)
    requires a.Valid() && b.Valid()
    ensures TimeValue(a) < TimeValue(b)
        <==> Before(a.date, b.date) || (a.date == b.date && a.timeOfDay < b.timeOfDay)
  {
    DayNumberOrder(a.date, b.date);
  }

}

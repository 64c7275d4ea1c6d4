/**
  The month view's calendar: the month length from "day 0 of next month",
  the weekday of the 1st, the list of day numbers, the entry map built from
  the server's list of date strings, and the gate in front of the entry
  detail request when a day is pressed.
 */
module CalendarGrid {
  import opened Wrappers
  import opened Gregorian
  import opened JsDate
  import opened DateKey
  import opened DayCell
  import opened DayGrid

  /** `new Date(year, month + 1, 0).getDate()`. */
  function MonthLength(year: int, month: int): (n: nat)
    requires 0 <= month < 12
  {
    NewDate(year, month + 1, 0).date.day
  }

  /** `new Date(year, month, 1).getDay()`. */
  function StartDay(year: int, month: int): (w: nat)
    requires 0 <= month < 12
  {
    GetDay(NewDate(year, month, 1))
  }

  /** The day numbers 1..n of the displayed month. */
  function Days(n: nat): (days: seq<int>)
    ensures |days| == n
    ensures forall k :: 0 <= k < n ==> days[k] == k + 1
  {
    seq(n, k => k + 1)
  }

  /** The loop `for (let i = 1; i <= daysInMonth; i++) days.push(i)`. */
  method BuildDays(daysInMonth: int) returns (days: seq<int>)
    ensures |days| == (if daysInMonth < 0 then 0 else daysInMonth)
    ensures forall k :: 0 <= k < |days| ==> days[k] == k + 1
    ensures forall j, k :: 0 <= j < k < |days| ==> days[j] < days[k]
    ensures days == Days(if daysInMonth < 0 then 0 else daysInMonth)
  {
    days := [];
    var i := 1;
    while i <= daysInMonth
      invariant 1 <= i
      invariant i <= (if daysInMonth < 0 then 1 else daysInMonth + 1)
      invariant |days| == i - 1
      invariant forall k :: 0 <= k < |days| ==> days[k] == k + 1
    {
      days := days + [i];
      i := i + 1;
    }
  }

  /** The entry map: `true` under each date string of the response, verbatim. */
  function EntryMapOf(dates: seq<string>): (m: map<string, bool>)
    ensures forall key :: HasEntry(m, key) <==> key in dates
  {
    map key | key in dates :: true
  }

  /** The loop `data.data.forEach((date) => { entryMap[date] = true; })`. */
  method BuildEntryMap(dates: seq<string>) returns (entryMap: map<string, bool>)
    ensures forall key :: key in entryMap <==> key in dates
    ensures forall key :: key in entryMap ==> entryMap[key]
    ensures entryMap == EntryMapOf(dates)
  {
    entryMap := map[];
    var i := 0;
    while i < |dates|
      invariant 0 <= i <= |dates|
      invariant forall key :: key in entryMap <==> key in dates[..i]
      invariant forall key :: key in entryMap ==> entryMap[key]
    {
      assert dates[..i + 1] == dates[..i] + [dates[i]];
      entryMap := entryMap[dates[i] := true];
      i := i + 1;
    }
    assert dates[..i] == dates;
  }

  /** The response of the day-listing request: the list of date strings, or
      a failure (network error, unreadable body). */
  datatype DaysResponse = DaysOk(dates: seq<string>) | DaysFailed

  /** `fetchEntries`: a failure is only logged, so the previous map stays. */
  function RefreshEntries(previous: map<string, bool>, response: DaysResponse): (m: map<string, bool>)
    ensures response.DaysFailed? ==> m == previous
    ensures response.DaysOk? ==> forall key :: HasEntry(m, key) <==> key in response.dates
  {
    match response
    case DaysOk(dates) => EntryMapOf(dates)
    case DaysFailed => previous
  }

  /** `handleDayPress`: the date of the detail request, if the pressed day's key
      is in the entry map; nothing is requested otherwise. */
  function HandleDayPress(currentMonth: LocalDateTime, entries: map<string, bool>, day: int): (r: Option<string>)
    requires currentMonth.Valid()
    ensures r.Some? <==> HasEntry(entries, FormatDate(currentMonth.date.year, currentMonth.date.month, day))
    ensures r.Some? ==> r.value == FormatDate(currentMonth.date.year, currentMonth.date.month, day)
  {
    var formattedDate := FormatDate(currentMonth.date.year, currentMonth.date.month, day);
    if HasEntry(entries, formattedDate) then Some(formattedDate) else None
  }

  /** A press on a cell: a placeholder or a disabled (future) cell does nothing,
      any other day cell calls the press handler with its day. */
  function PressCell(cell: Cell, currentMonth: LocalDateTime, entries: map<string, bool>): (r: Option<string>)
    requires currentMonth.Valid()
    ensures r.Some? <==> (cell.Day? && !cell.isFuture
                          && HasEntry(entries, FormatDate(currentMonth.date.year, currentMonth.date.month, cell.day)))
    ensures r.Some? ==> (cell.Day?
                         && r.value == FormatDate(currentMonth.date.year, currentMonth.date.month, cell.day))
  {
    if cell.Placeholder? || DayTouch(cell.isFuture).disabled then None
    else HandleDayPress(currentMonth, entries, cell.day)
  }

  /** The rendered month: placeholders for the weekdays before the 1st, then
      days 1..N of the month. */
  function CalendarView(currentMonth: LocalDateTime, today: LocalDateTime, entries: map<string, bool>): seq<Cell>
    requires currentMonth.Valid() && today.Valid()
  {
    var year := currentMonth.date.year;
    var month := currentMonth.date.month;
    Grid(Days(MonthLength(year, month)), StartDay(year, month), entries, today, currentMonth)
  }

  // ----- Lemmas -----

  /** The grid of days 1..n after `lead` placeholders: cell i past the
      placeholders is day i - lead + 1. */
  lemma GridOfDays(n: nat, lead: nat, entries: map<string, bool>, today: LocalDateTime,
                   currentMonth: LocalDateTime, i: int)
    requires today.Valid() && currentMonth.Valid()
    ensures var view := Grid(Days(n), lead, entries, today, currentMonth);
      && |view| == lead + n
      && (0 <= i < lead ==> view[i] == Placeholder)
      && (lead <= i < |view| ==> view[i] == CellFor(entries, today, currentMonth, i - lead + 1, false))
  {
    if lead <= i < lead + n {
      assert Days(n)[i - lead] == i - lead + 1;
    }
  }

  /** The rendered month is `startDay` placeholders, then one cell for each
      day 1..N of the month, and nothing after them: cell i is a placeholder
      before the 1st's weekday and day i - startDay + 1 from there on. */
  lemma CalendarViewLayout(currentMonth: LocalDateTime, today: LocalDateTime, entries: map<string, bool>, i: int)
    requires currentMonth.Valid() && today.Valid()
    ensures var year := currentMonth.date.year;
      var month := currentMonth.date.month;
      var lead := StartDay(year, month);
      var view := CalendarView(currentMonth, today, entries);
      && |view| == lead + MonthLength(year, month)
      && (0 <= i < lead ==> view[i] == Placeholder)
      && (lead <= i < |view| ==> view[i] == CellFor(entries, today, currentMonth, i - lead + 1, false))
  {
    var n := MonthLength(currentMonth.date.year, currentMonth.date.month);
    var lead := StartDay(currentMonth.date.year, currentMonth.date.month);
    assert CalendarView(currentMonth, today, entries) == Grid(Days(n), lead, entries, today, currentMonth);
    GridOfDays(n, lead, entries, today, currentMonth, i);
  }

  /** "Day 0 of next month" gives the Gregorian month length: 31 or 30 by
      month, and 29 for February exactly in leap years, else 28. */
  lemma MonthLengthMatchesTable(year: int, month: int)
    requires 0 <= month < 12
    ensures MonthLength(year, month) == DaysInMonth(FullYear(year), month)
    ensures 28 <= MonthLength(year, month) <= 31
    ensures MonthLength(year, month) == 29 <==> month == 1 && IsLeapYear(FullYear(year))
  {
    DayZeroOfNextMonth(FullYear(year), month);
  }

  /** The leading placeholder count is the weekday (0 = Sunday) of the 1st. */
  lemma StartDayIsWeekdayOfFirst(year: int, month: int)
    requires 0 <= month < 12
    ensures 0 <= StartDay(year, month) < 7
    ensures StartDay(year, month) == WeekdayOfDayNumber(DayNumber(FullYear(year), month, 1))
  {
    NormalizeValid(CivilDate(FullYear(year), month, 1));
  }

  /** The weekday of the 1st advances by the month's length, month after
      month and across the turn of the year. */
  lemma StartDayCycle(year: int, month: int)
    requires 0 <= month < 12 && !(-1 <= year <= 99)
    ensures month < 11 ==>
      StartDay(year, month + 1) == (StartDay(year, month) + MonthLength(year, month)) % 7
    ensures month == 11 ==>
      StartDay(year + 1, 0) == (StartDay(year, month) + MonthLength(year, month)) % 7
  {
    assert FullYear(year) == year && FullYear(year + 1) == year + 1;
    StartDayIsWeekdayOfFirst(year, month);
    if month < 11 {
      StartDayIsWeekdayOfFirst(year, month + 1);
    } else {
      StartDayIsWeekdayOfFirst(year + 1, 0);
    }
    MonthLengthMatchesTable(year, month);
    WeekdayOfNextMonth(year, month);
  }

  /** Counted from 1 January 1970, a Thursday: 1 February 2025 is a Saturday. */
  lemma StartDayAnchors()
    ensures StartDay(1970, 0) == 4
    ensures StartDay(2025, 1) == 6
  {
    StartDayIsWeekdayOfFirst(1970, 0);
    StartDayIsWeekdayOfFirst(2025, 1);
    DayFromYearStep(1970);
    assert DayFromYear(2025) == 20089;
    assert DayNumber(2025, 1, 1) == 20120;
  }

  /** One day cell of the month view: day k + 1 of the month, keyed by its date,
      marked as having an entry exactly when the map holds its key, in the
      future exactly when after today, and never marked as today. */
  lemma CalendarDayCell(currentMonth: LocalDateTime, today: LocalDateTime, entries: map<string, bool>, k: int)
    requires currentMonth.Valid() && today.Valid() && today.timeOfDay == 0
    requires !(0 <= currentMonth.date.year <= 99)
    requires 0 <= k < MonthLength(currentMonth.date.year, currentMonth.date.month)
    ensures var year := currentMonth.date.year;
      var month := currentMonth.date.month;
      var cell := CalendarView(currentMonth, today, entries)[StartDay(year, month) + k];
      && cell.Day?
      && cell.day == k + 1
      && cell.formattedDate == FormatDate(year, month, k + 1)
      && (cell.hasEntry <==> HasEntry(entries, FormatDate(year, month, k + 1)))
      && (cell.isFuture <==> Before(today.date, CivilDate(year, month, k + 1)))
      && !cell.isToday
  {
    var year := currentMonth.date.year;
    var month := currentMonth.date.month;
    assert FullYear(year) == year;
    CalendarViewLayout(currentMonth, today, entries, StartDay(year, month) + k);
    MonthLengthMatchesTable(year, month);
    NormalizeValid(CivilDate(year, month, k + 1));
    IsFutureMeansAfterToday(entries, today, currentMonth, k + 1, false);
  }

  /** Pressing a day cell of the view reaches the detail request exactly when
      the day is not in the future and has an entry, and the request is for
      the cell's own key. */
  lemma PressReachesLookupIffEntry(currentMonth: LocalDateTime, today: LocalDateTime,
                                   entries: map<string, bool>, i: int)
    requires currentMonth.Valid() && today.Valid() && 0 <= i
    ensures var view := CalendarView(currentMonth, today, entries);
      i < |view| ==>
        var r := PressCell(view[i], currentMonth, entries);
        (r.Some? <==> view[i].Day? && !view[i].isFuture && view[i].hasEntry)
        && (r.Some? ==> r.value == view[i].formattedDate)
  {
    var view := CalendarView(currentMonth, today, entries);
    var lead := StartDay(currentMonth.date.year, currentMonth.date.month);
    CalendarViewLayout(currentMonth, today, entries, i);
  }

}

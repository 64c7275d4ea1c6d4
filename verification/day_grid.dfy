/**
  The cells of the month view: `startDay` empty placeholders, then one day
  cell per element of `days`, each carrying its `year-MM-DD` key, whether the
  entry map has that key, and whether the day is in the future.

  As written, the grid never passes `isToday` to the cell, so every cell gets
  a falsy `isToday` (`Grid`); `GridWithToday` is the grid with the flag passed.
 */
module DayGrid {
  import opened Gregorian
  import opened JsDate
  import opened DateKey
  import opened DayCell

  datatype Cell =
    | Placeholder
    | Day(day: int, formattedDate: string, hasEntry: bool, isFuture: bool, isToday: bool)

  /** `entries[key]` read as a condition: a missing key is undefined, hence falsy. */
  predicate HasEntry(entries: map<string, bool>, key: string) {
    key in entries && entries[key]
  }

  /** The local midnight of `day` of the displayed month, `new Date(year, month, day)`. */
  function CellDate(currentMonth: LocalDateTime, day: int): LocalDateTime
    requires currentMonth.Valid()
  {
    NewDate(currentMonth.date.year, currentMonth.date.month, day)
  }

  /** `dateObj > today`: the day's local midnight is after today's time value. */
  predicate IsFuture(today: LocalDateTime, currentMonth: LocalDateTime, day: int)
    requires today.Valid() && currentMonth.Valid()
    ensures today.timeOfDay == 0 ==>
      (IsFuture(today, currentMonth, day) <==> Before(today.date, CellDate(currentMonth, day).date))
  {
    TimeValueOrder(today, CellDate(currentMonth, day));
    TimeValue(CellDate(currentMonth, day)) > TimeValue(today)
  }

  /** One day cell; `isToday` is whatever the caller passes. */
  function CellFor(entries: map<string, bool>, today: LocalDateTime, currentMonth: LocalDateTime,
                   day: int, isToday: bool): Cell
    requires today.Valid() && currentMonth.Valid()
  {
    var formattedDate := FormatDate(currentMonth.date.year, currentMonth.date.month, day);
    Day(day, formattedDate, HasEntry(entries, formattedDate), IsFuture(today, currentMonth, day), isToday)
  }

  /** `startDay` placeholders followed by the day cells; nothing trails. */
  function Layout(startDay: nat, dayCells: seq<Cell>): (cells: seq<Cell>)
    ensures |cells| == startDay + |dayCells|
    ensures forall i :: 0 <= i < startDay ==> cells[i] == Placeholder
    ensures forall i :: startDay <= i < |cells| ==> cells[i] == dayCells[i - startDay]
  {
    seq(startDay, _ => Placeholder) + dayCells
  }

  /** Whether `day` of the displayed month is today's date. */
  predicate IsTodayCell(today: LocalDateTime, currentMonth: LocalDateTime, day: int)
    requires currentMonth.Valid()
  {
    CellDate(currentMonth, day).date == today.date
  }

  /** `days.map(cellOf)`: one cell per day, in the same order. */
  function MapDays(days: seq<int>, cellOf: int -> Cell): (cells: seq<Cell>)
    ensures |cells| == |days|
    ensures forall i :: 0 <= i < |days| ==> cells[i] == cellOf(days[i])
  {
    if |days| == 0 then [] else [cellOf(days[0])] + MapDays(days[1..], cellOf)
  }

  /** The grid as written: the cells are built with no `isToday`. */
  function Grid(days: seq<int>, startDay: nat, entries: map<string, bool>,
                today: LocalDateTime, currentMonth: LocalDateTime): (cells: seq<Cell>)
    requires today.Valid() && currentMonth.Valid()
    ensures |cells| == startDay + |days|
    ensures forall i :: 0 <= i < startDay ==> cells[i] == Placeholder
    ensures forall i :: startDay <= i < |cells| ==>
      cells[i] == CellFor(entries, today, currentMonth, days[i - startDay], false)
  {
    Layout(startDay, MapDays(days, day => CellFor(entries, today, currentMonth, day, false)))
  }

  /** The grid with `isToday` passed: true on the cell whose date is today's. */
  function GridWithToday(days: seq<int>, startDay: nat, entries: map<string, bool>,
                         today: LocalDateTime, currentMonth: LocalDateTime): (cells: seq<Cell>)
    requires today.Valid() && currentMonth.Valid()
    ensures |cells| == startDay + |days|
    ensures forall i :: 0 <= i < startDay ==> cells[i] == Placeholder
    ensures forall i :: startDay <= i < |cells| ==>
      cells[i] == CellFor(entries, today, currentMonth, days[i - startDay],
                          IsTodayCell(today, currentMonth, days[i - startDay]))
  {
    Layout(startDay, MapDays(days, day => CellFor(entries, today, currentMonth, day, IsTodayCell(today, currentMonth, day))))
  }

  // ----- Lemmas -----

  /** A cell is in the future exactly when its date comes after today's date
      (today being a local midnight); today and earlier days are not. */
  lemma IsFutureMeansAfterToday(entries: map<string, bool>, today: LocalDateTime,
                                currentMonth: LocalDateTime, day: int, isToday: bool)
    requires today.Valid() && currentMonth.Valid() && today.timeOfDay == 0
    ensures CellFor(entries, today, currentMonth, day, isToday).isFuture
        <==> Before(today.date, CellDate(currentMonth, day).date)
    ensures CellDate(currentMonth, day).date == today.date
        ==> !CellFor(entries, today, currentMonth, day, isToday).isFuture
  {
    TimeValueOrder(today, CellDate(currentMonth, day));
  }

  /** Within a month, once a day is in the future every later day is too. */
  lemma IsFutureMonotone(entries: map<string, bool>, today: LocalDateTime,
                         currentMonth: LocalDateTime, d1: int, d2: int)
    requires today.Valid() && currentMonth.Valid() && d1 <= d2
    requires CellFor(entries, today, currentMonth, d1, false).isFuture
    ensures CellFor(entries, today, currentMonth, d2, false).isFuture
  {
    var y := FullYear(currentMonth.date.year);
    var m := currentMonth.date.month;
    NormalizeDayNumber(y, m, d1);
    NormalizeDayNumber(y, m, d2);
    MakeDayInYear(y, m, d1);
    MakeDayInYear(y, m, d2);
  }

  /** The defect as written: since `isToday` is never passed, no cell of the
      grid ever gets the today background, and today's cell without an entry
      is drawn like any other empty day. */
  lemma TodayNeverHighlighted(days: seq<int>, startDay: nat, entries: map<string, bool>,
                              today: LocalDateTime, currentMonth: LocalDateTime, i: int)
    requires today.Valid() && currentMonth.Valid()
    requires startDay <= i < startDay + |days|
    ensures var c := Grid(days, startDay, entries, today, currentMonth)[i];
      !c.isToday
      && DayBackground(c.hasEntry, c.isToday) != TodayBackground
      && (!c.hasEntry ==> DayBackground(c.hasEntry, c.isToday) == DisabledBackground)
  {
    var c := Grid(days, startDay, entries, today, currentMonth)[i];
    assert c == CellFor(entries, today, currentMonth, days[i - startDay], false);
  }

  /** With `isToday` passed, today's cell is marked, is not in the future, and
      gets the today background unless it has an entry; other cells are unmarked. */
  lemma TodayHighlightedWhenPassed(days: seq<int>, startDay: nat, entries: map<string, bool>,
                                   today: LocalDateTime, currentMonth: LocalDateTime, i: int)
    requires today.Valid() && currentMonth.Valid() && today.timeOfDay == 0
    requires startDay <= i < startDay + |days|
    ensures var c := GridWithToday(days, startDay, entries, today, currentMonth)[i];
      var d := CellDate(currentMonth, days[i - startDay]).date;
      (c.isToday <==> d == today.date)
      && (c.isToday ==> !c.isFuture)
      && (c.isToday && !c.hasEntry ==> DayBackground(c.hasEntry, c.isToday) == TodayBackground)
  {
    var day := days[i - startDay];
    var c := GridWithToday(days, startDay, entries, today, currentMonth)[i];
    assert c == CellFor(entries, today, currentMonth, day, IsTodayCell(today, currentMonth, day));
    IsFutureMeansAfterToday(entries, today, currentMonth, day, c.isToday);
  }

}

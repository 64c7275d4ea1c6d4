/**
  Previous / Next month navigation of the calendar, for a fixed `today`.

  The displayed month is a full Date (`currentMonth`, initially `new Date()`),
  stepped with `setMonth(getMonth() ± 1)`, which keeps the day-of-month and
  rolls any overflow into the following month. Previous is blocked while the
  displayed instant is at or before `new Date(2025, 1, 1)` (1 February 2025,
  00:00); Next is blocked while the displayed year and month are today's.
 */
module Navigation {
  import opened Gregorian
  import opened JsDate

  /** `new Date(2025, 1, 1)`: month index 1 is February. */
  function MinDate(): (r: LocalDateTime)
    ensures r == LocalDateTime(CivilDate(2025, 1, 1), 0)
  {
    NewDate(2025, 1, 1)
  }

  /** `today`: `new Date()` with `setHours(0, 0, 0, 0)`. */
  function Today(now: LocalDateTime): (r: LocalDateTime)
    requires now.Valid()
    ensures r.Valid() && r.date == now.date && r.timeOfDay == 0
  {
    StartOfDay(now)
  }

  /** `new Date(today.getFullYear(), today.getMonth(), 1)`. */
  function MaxMonth(today: LocalDateTime): (r: LocalDateTime)
    requires today.Valid()
    ensures r.Valid() && r.timeOfDay == 0 && r.date.day == 1
    ensures !(0 <= today.date.year <= 99) ==> r.date == CivilDate(today.date.year, today.date.month, 1)
  {
    NewDate(today.date.year, today.date.month, 1)
  }

  /** `currentMonth <= minDate`, an instant comparison. */
  predicate IsAtMinMonth(currentMonth: LocalDateTime)
    requires currentMonth.Valid()
    ensures IsAtMinMonth(currentMonth)
        <==> Before(currentMonth.date, CivilDate(2025, 1, 1))
             || (currentMonth.date == CivilDate(2025, 1, 1) && currentMonth.timeOfDay == 0)
  {
    TimeValueOrder(currentMonth, MinDate());
    TimeValue(currentMonth) <= TimeValue(MinDate())
  }

  /** Year and month equal to those of `maxMonth`. */
  predicate IsAtMaxMonth(currentMonth: LocalDateTime, today: LocalDateTime)
    requires currentMonth.Valid() && today.Valid()
    ensures !(0 <= today.date.year <= 99) ==>
      (IsAtMaxMonth(currentMonth, today) <==> MonthOf(currentMonth) == MonthOf(today))
  {
    currentMonth.date.year == MaxMonth(today).date.year
    && currentMonth.date.month == MaxMonth(today).date.month
  }

  /** `handlePreviousMonth`. */
  function PreviousMonth(currentMonth: LocalDateTime): (r: LocalDateTime)
    requires currentMonth.Valid()
    ensures r.Valid()
  {
    if !IsAtMinMonth(currentMonth) then SetMonth(currentMonth, currentMonth.date.month - 1)
    else currentMonth
  }

  /** `handleNextMonth`. */
  function NextMonth(currentMonth: LocalDateTime, today: LocalDateTime): (r: LocalDateTime)
    requires currentMonth.Valid() && today.Valid()
    ensures r.Valid()
  {
    if !IsAtMaxMonth(currentMonth, today) then SetMonth(currentMonth, currentMonth.date.month + 1)
    else currentMonth
  }

  datatype Press = Previous | Next

  /** The displayed date after a sequence of button presses. */
  function Navigate(currentMonth: LocalDateTime, today: LocalDateTime, presses: seq<Press>): (r: LocalDateTime)
    requires currentMonth.Valid() && today.Valid()
    ensures r.Valid()
    decreases |presses|
  {
    if |presses| == 0 then currentMonth
    else
      var next := match presses[0]
        case Previous => PreviousMonth(currentMonth)
        case Next => NextMonth(currentMonth, today);
      Navigate(next, today, presses[1..])
  }

  function MonthOf(t: LocalDateTime): int {
    MonthIndex(t.date.year, t.date.month)
  }

  function Min(a: int, b: int): int {
    if a <= b then a else b
  }

  /** What every reachable displayed date satisfies, for a fixed today: its
      day never exceeds today's day, and its month lies between the earlier of
      January 2025 and today's month, and today's month. */
  predicate NavInvariant(currentMonth: LocalDateTime, today: LocalDateTime) {
    && currentMonth.Valid()
    && currentMonth.date.day <= today.date.day
    && MonthOf(currentMonth) <= MonthOf(today)
    && MonthOf(currentMonth) >= Min(MonthOf(today), MonthIndex(2025, 0))
  }

  // ----- Lemmas -----

  /** `setMonth` lands on the target month when the day fits, and otherwise
      on the next month with the surplus days; the time of day is kept and the
      day never grows. */
  lemma SetMonthStep(t: LocalDateTime, month: int)
    requires t.Valid()
    ensures var y := t.date.year + month / 12;
      var m := month % 12;
      var len := DaysInMonth(y, m);
      var r := SetMonth(t, month);
      && r.timeOfDay == t.timeOfDay
      && r.date.day <= t.date.day
      && (t.date.day <= len ==> r.date == CivilDate(y, m, t.date.day))
      && (t.date.day > len ==> MonthOf(r) == MonthIndex(y, m) + 1 && r.date.day == t.date.day - len)
  {
    var y := t.date.year + month / 12;
    var m := month % 12;
    var d := t.date.day;
    NormalizeReducesMonth(t.date.year, month, d);
    NormalizeOverflow(y, m, d);
  }

  /** Stepping back from 31 March 2025 lands on 3 March 2025: February has no
      31st, so the surplus three days roll forward. */
  lemma BackFromMarch31(timeOfDay: int)
    requires 0 <= timeOfDay < MsPerDay
    ensures SetMonth(LocalDateTime(CivilDate(2025, 2, 31), timeOfDay), 1)
         == LocalDateTime(CivilDate(2025, 2, 3), timeOfDay)
  {
    var t := LocalDateTime(CivilDate(2025, 2, 31), timeOfDay);
    SetMonthStep(t, 1);
    var r := SetMonth(t, 1);
    assert MonthOf(r) == MonthIndex(2025, 2);
  }

  /** Past the minimum instant, the displayed month is February 2025 or later;
      every instant of January 2025 or earlier is at the minimum. */
  lemma AfterMinDateMeansFebruaryOrLater(currentMonth: LocalDateTime)
    requires currentMonth.Valid()
    ensures !IsAtMinMonth(currentMonth) ==> MonthOf(currentMonth) >= MonthIndex(2025, 1)
    ensures MonthOf(currentMonth) <= MonthIndex(2025, 0) ==> IsAtMinMonth(currentMonth)
  {
    TimeValueOrder(currentMonth, MinDate());
    MonthIndexOrder(currentMonth.date, 2025, 1);
  }

  /** Next changes the displayed date exactly when it is not at today's month. */
  lemma NextNoOpIffAtMax(currentMonth: LocalDateTime, today: LocalDateTime)
    requires currentMonth.Valid() && today.Valid()
    ensures NextMonth(currentMonth, today) == currentMonth <==> IsAtMaxMonth(currentMonth, today)
  {
    SetMonthStep(currentMonth, currentMonth.date.month + 1);
  }

  /** Previous changes the displayed date exactly when it is after the minimum instant. */
  lemma PreviousNoOpIffAtMin(currentMonth: LocalDateTime)
    requires currentMonth.Valid()
    ensures PreviousMonth(currentMonth) == currentMonth <==> IsAtMinMonth(currentMonth)
  {
    SetMonthStep(currentMonth, currentMonth.date.month - 1);
  }

  /** January 2025 is reachable: from a mid-February day Previous lands on the
      same day of January, and there Previous is blocked. */
  lemma JanuaryIsReachable(timeOfDay: int)
    requires 0 <= timeOfDay < MsPerDay
    ensures var feb := LocalDateTime(CivilDate(2025, 1, 15), timeOfDay);
      var jan := PreviousMonth(feb);
      && jan == LocalDateTime(CivilDate(2025, 0, 15), timeOfDay)
      && PreviousMonth(jan) == jan
  {
    var feb := LocalDateTime(CivilDate(2025, 1, 15), timeOfDay);
    AfterMinDateMeansFebruaryOrLater(feb);
    TimeValueOrder(feb, MinDate());
    SetMonthStep(feb, 0);
    var jan := LocalDateTime(CivilDate(2025, 0, 15), timeOfDay);
    AfterMinDateMeansFebruaryOrLater(jan);
  }

  /** The calendar opens on `new Date()`, which satisfies the invariant. */
  lemma InvariantInitially(now: LocalDateTime)
    requires now.Valid()
    ensures NavInvariant(now, Today(now))
  {
  }

  /** Previous keeps the invariant: the day never grows, and the month moves
      back by at most one and only while past 1 February 2025 00:00. */
  lemma PreviousKeepsInvariant(currentMonth: LocalDateTime, today: LocalDateTime)
    requires NavInvariant(currentMonth, today)
    ensures NavInvariant(PreviousMonth(currentMonth), today)
  {
    if !IsAtMinMonth(currentMonth) {
      AfterMinDateMeansFebruaryOrLater(currentMonth);
      SetMonthStep(currentMonth, currentMonth.date.month - 1);
    }
  }

  /** Next keeps the invariant: it only moves below today's month, and a day
      carried into today's month fits it, because it is at most today's day. */
  lemma NextKeepsInvariant(currentMonth: LocalDateTime, today: LocalDateTime)
    requires NavInvariant(currentMonth, today) && today.Valid()
    requires !(0 <= today.date.year <= 99)
    ensures NavInvariant(NextMonth(currentMonth, today), today)
  {
    if !IsAtMaxMonth(currentMonth, today) {
      SetMonthStep(currentMonth, currentMonth.date.month + 1);
    }
  }

  /** Whatever the presses, starting from `new Date()` the displayed day never
      exceeds today's, the displayed month never passes today's month, and it
      never goes before January 2025 (nor before today's month, if that is earlier). */
  lemma {:induction false} NavigationBounds(currentMonth: LocalDateTime, today: LocalDateTime, presses: seq<Press>)
    requires NavInvariant(currentMonth, today) && today.Valid()
    requires !(0 <= today.date.year <= 99)
    ensures NavInvariant(Navigate(currentMonth, today, presses), today)
    decreases |presses|
  {
    if |presses| > 0 {
      var next := match presses[0]
        case Previous => PreviousMonth(currentMonth)
        case Next => NextMonth(currentMonth, today);
      if presses[0].Previous? {
        PreviousKeepsInvariant(currentMonth, today);
      } else {
        NextKeepsInvariant(currentMonth, today);
      }
      NavigationBounds(next, today, presses[1..]);
    }
  }

  /** The bounds for the calendar as it opens: `currentMonth = new Date()`. */
  lemma NavigationFromNow(now: LocalDateTime, presses: seq<Press>)
    requires now.Valid() && !(0 <= now.date.year <= 99)
    requires MonthOf(now) >= MonthIndex(2025, 0)
    ensures var shown := Navigate(now, Today(now), presses);
      && MonthIndex(2025, 0) <= MonthOf(shown) <= MonthOf(now)
      && shown.date.day <= now.date.day
  {
    InvariantInitially(now);
    NavigationBounds(now, Today(now), presses);
  }

}

# Gratitude journal calendar and monthly counter — a Dafny model

This project models the date logic of a journaling app's month calendar and
of its "entries this month" counter:

- the calendar grid (`components/CalendarGrid.tsx`). It computes the length of
  the displayed month by asking for "day 0 of next month" and the weekday of
  the 1st. It builds the list of day numbers and the entry map from the
  server's list of date strings. It steps the displayed month back and forth
  with `setMonth`. Previous is allowed only after 1 February 2025 00:00, so
  the lowest month shown is January 2025; Next stops at today's month. A
  pressed day only leads to a detail request when the entry map holds that
  day's `year-MM-DD` key.
- the day grid (`components/DayGrid.tsx`). It lays out the leading
  placeholders and one cell per day, each with its formatted date, its
  entry flag and whether it lies after today.
- the day cell (`components/DayCell.tsx`). It picks the background and text
  style from the entry and today flags, and disables touch on future days.
- the monthly count provider (`context/MonthlyCountProvider.tsx`). It counts
  the fetched timestamps that fall in the current local year and month, and
  keeps the entries/loading state around the fetch.

JavaScript `Date` is modelled on a uniform local timeline, following the
definitions of ECMA-262:

- a calendar date plus a time of day in milliseconds;
- day numbers counted from 1 January 1970 (`DayFromYear`, `MakeDay`) and
  weekdays from the Thursday that day fell on;
- month overflow normalised through the day number, as `new Date(y, m, d)`
  and `setMonth` do;
- the constructor's mapping of years 0..99 to 1900..1999.

Month lengths and the leap-year rule follow the table of section 5.7 and
Appendix C of RFC 3339.

Modules, one file each:

- `Wrappers`: `Option`.
- `Gregorian`: the proleptic Gregorian calendar and day numbers.
- `JsDate`: the `Date` operations used.
- `DateKey`: `formatDate` and a parser for its output.
- `DayCell`, `DayGrid`, `CalendarGrid`, `Navigation`: the month view.
- `MonthlyCount`: the provider.

The model follows the code in these places:

- The month view emits no trailing placeholders after the last day.
- Cell keys are built from the displayed month and are looked up verbatim
  among the server's date strings. The counter, by contrast, converts each
  timestamp to local time.
- `isAtMinMonth` compares instants with 1 February 2025 at 00:00. So January
  2025 can be displayed, and Previous stops there.
- `isToday` is never passed from the grid to the cell (see Findings).

## Model

| member | source | states |
|---|---|---|
| Gregorian.DaysInMonth | components/CalendarGrid.tsx:55-61 | a month has 28 to 31 days, and 29 exactly for February of a leap year |
| Gregorian.DayFromYearStep | components/CalendarGrid.tsx:50-61 | day numbering starts at 0 on 1 January 1970 and each year adds exactly its 365 or 366 days |
| Gregorian.DaysBeforeMonthStep | components/CalendarGrid.tsx:55-61 | the days before a month grow by that month's length, and all twelve months add up to the year |
| Gregorian.NextMonthStart | components/CalendarGrid.tsx:55-59 | the day after a month's last day is the 1st of the next month, across the turn of the year too |
| Gregorian.DayFromYearMonotone | components/CalendarGrid.tsx:23 | every later year starts at least a full year after an earlier one |
| Gregorian.DayNumberWithinYear | components/CalendarGrid.tsx:23 | a valid date's day number lies within its year's span |
| Gregorian.DayNumberOrder | components/CalendarGrid.tsx:23 | on valid dates, the day-number order is the calendar order, and equal day numbers mean the same date |
| Gregorian.MonthIndexOrder | components/CalendarGrid.tsx:23-26 | a date's month is earlier than a given month exactly when the date's day number is below that month's 1st |
| Gregorian.WeekdayOfNextMonth | components/CalendarGrid.tsx:50-60 | the 1st of the next month falls the month's length of weekdays after this month's 1st |
| Gregorian.WeekdayOfDayNumber | components/CalendarGrid.tsx:60 | a weekday is 0 (Sunday) to 6 |
| JsDate.Normalize | components/CalendarGrid.tsx:50-59 | `new Date(y, m, d)` always yields a valid calendar date, whatever the month and day |
| JsDate.NormalizeDayNumber | components/CalendarGrid.tsx:55-59 | the normalised date has the day number `MakeDay(y, m, d)`: out-of-range months and days, 0 and negatives included, carry over |
| JsDate.NormalizeReducesMonth | components/CalendarGrid.tsx:70-71 | the month is folded into the year before the day is normalised, so `setMonth(-1)` means December of the year before |
| JsDate.NormalizeValid | components/DayGrid.tsx:36-40 | a date that is already valid is kept unchanged |
| JsDate.NormalizeOverflow | components/CalendarGrid.tsx:70-71 | a day 1..31 either fits the month or rolls its surplus into the next month, and it never grows |
| JsDate.DayZeroOfNextMonth | components/CalendarGrid.tsx:55-59 | day 0 of the next month is the last day of this month |
| JsDate.TimeValueOrder | components/DayGrid.tsx:41 | comparing `Date`s orders them by calendar date and then by time of day |
| JsDate.NewDate | components/CalendarGrid.tsx:50-54 | the constructor yields a valid date at midnight |
| JsDate.SetMonth | components/CalendarGrid.tsx:70-71 | `setMonth` yields a valid date, keeping the time of day |
| JsDate.SetMonthDayNumber | components/CalendarGrid.tsx:70-71 | `setMonth` lands on the day that MakeDay names for the kept year and day-of-month and the new month, so any overflow carries into later months |
| JsDate.StartOfDay | components/CalendarGrid.tsx:19-20 | `setHours(0, 0, 0, 0)` keeps the date and sets the time to midnight |
| JsDate.GetDay | components/CalendarGrid.tsx:60 | `getDay` is between 0 and 6 |
| DateKey.NatToString | components/CalendarGrid.tsx:104-108 | a number prints as a non-empty string of decimal digits |
| DateKey.ParseNatToString | components/CalendarGrid.tsx:104-108 | printing a natural number and reading the digits back gives the number |
| DateKey.NatToStringLength | components/CalendarGrid.tsx:104-108 | numbers of one to four digits print with exactly that many characters |
| DateKey.Pad2 | components/CalendarGrid.tsx:105-106 | has no contract of its own; its meaning is stated by Pad2RoundTrip: 1..99 pad to two characters that read back as the number |
| DateKey.FormatDate | components/CalendarGrid.tsx:104-108 | has no contract of its own; its meaning is stated by FormatDateRoundTrip and FormatDateInjective: for four-digit years a ten-character key that parses back to the date, distinct for distinct dates |
| DateKey.Pad2RoundTrip | components/CalendarGrid.tsx:105-107 | a padded month or day is two characters that read back as the number |
| DateKey.FormatDateRoundTrip | components/CalendarGrid.tsx:104-108 | for four-digit years the key has ten characters and parses back to the same year, month and day |
| DateKey.NegativeYearKeyDoesNotParse | components/CalendarGrid.tsx:104-108 | a year of -999 prints as four characters, so its key has ten characters yet does not parse back |
| DateKey.FormatDateInjective | components/DayGrid.tsx:22-26 | distinct dates with four-digit years get distinct keys |
| DayCell.DayBackground | components/DayCell.tsx:22-30 | an entry gives the entry background, today without an entry gives the today background, and the disabled background is used exactly when neither holds |
| DayCell.DayText | components/DayCell.tsx:32-38 | the number is bright exactly when the day has an entry or is today |
| DayCell.DayTouch | components/DayCell.tsx:43-44 | a cell is disabled exactly when it is in the future, with opacity 1 then and 0.6 otherwise |
| DayCell.BrightTextOnColouredBackground | components/DayCell.tsx:22-38 | the number is bright exactly when the background is not the disabled one |
| DayCell.FeedbackOnlyWhenTouchable | components/DayCell.tsx:43-44 | a cell gives no press feedback exactly when it is disabled |
| DayGrid.Layout | components/DayGrid.tsx:31-59 | the grid is `startDay` placeholders followed by the day cells in order, with nothing after them |
| DayGrid.HasEntry | components/DayGrid.tsx:47 | has no contract of its own; EntryMapOf and RefreshEntries state it: after a successful fetch it holds exactly for the listed date strings |
| DayGrid.IsFuture | components/DayGrid.tsx:41 | with today at midnight, a day is in the future exactly when its date is after today's date |
| DayGrid.CellFor | components/DayGrid.tsx:35-57 | has no contract of its own; CalendarDayCell states its fields: the day, its formatted date, an entry exactly when the map holds that date, future exactly when after today, and no today flag |
| DayGrid.MapDays | components/DayGrid.tsx:35-59 | one cell per day, in the order of the days |
| DayGrid.Grid | components/DayGrid.tsx:31-59 | the grid as written: placeholders, then for each day the cell with its formatted date, entry flag, future flag and no today flag |
| DayGrid.GridWithToday | components/DayCell.tsx:9 | the grid with the today flag passed: the same cells, marked as today exactly when the cell's date is today's |
| DayGrid.IsFutureMeansAfterToday | components/DayGrid.tsx:36-41 | with today at midnight, a cell is in the future exactly when its date is after today's date, so today is not in the future |
| DayGrid.IsFutureMonotone | components/DayGrid.tsx:41 | within a month, every day after a future day is also in the future |
| DayGrid.TodayNeverHighlighted | components/DayGrid.tsx:50-57 | as written no cell is marked as today, none gets the today background, and today without an entry gets the disabled background |
| DayGrid.TodayHighlightedWhenPassed | components/DayCell.tsx:25-26 | with the flag passed, today's cell is marked, is not in the future, and gets the today background when it has no entry |
| CalendarGrid.MonthLengthMatchesTable | components/CalendarGrid.tsx:55-61 | `daysInMonth` is the Gregorian length of the month, 28 to 31, and 29 exactly for February of a leap year |
| CalendarGrid.StartDayIsWeekdayOfFirst | components/CalendarGrid.tsx:50-60 | `startDay` is the weekday of the 1st of the displayed month, between 0 and 6 |
| CalendarGrid.StartDayCycle | components/CalendarGrid.tsx:50-61 | the next month's `startDay` is this month's plus its length, modulo 7, across the turn of the year too |
| CalendarGrid.StartDayAnchors | components/CalendarGrid.tsx:60 | January 1970 starts on a Thursday and February 2025 on a Saturday |
| CalendarGrid.MonthLength | components/CalendarGrid.tsx:55-61 | has no contract of its own; MonthLengthMatchesTable states it: the Gregorian length of the month, 28 to 31 |
| CalendarGrid.StartDay | components/CalendarGrid.tsx:50-60 | has no contract of its own; StartDayIsWeekdayOfFirst states it: the weekday of the 1st, 0 (Sunday) to 6 |
| CalendarGrid.BuildDays | components/CalendarGrid.tsx:63-66 | the loop yields exactly 1 to `daysInMonth`, strictly increasing, and nothing for a non-positive bound; this is the list the view uses |
| CalendarGrid.EntryMapOf | components/CalendarGrid.tsx:36-39 | the map reports an entry for a key exactly when the server listed that string |
| CalendarGrid.BuildEntryMap | components/CalendarGrid.tsx:36-39 | the loop's map has exactly the listed strings as keys, each mapped to true, and it is the map the refresh installs |
| CalendarGrid.RefreshEntries | components/CalendarGrid.tsx:36-44 | a successful response replaces the map with the listed dates, and a failure keeps the previous map |
| CalendarGrid.HandleDayPress | components/CalendarGrid.tsx:84-90 | the detail request is made exactly when the map holds the day's key, and it asks for that key |
| CalendarGrid.PressCell | components/DayCell.tsx:43-45 | a press reaches the detail request exactly for a day cell that is not in the future and whose key the map holds, and the request is for that key |
| CalendarGrid.CalendarView | components/CalendarGrid.tsx:117-124 | has no contract of its own; CalendarViewLayout states it: `startDay` placeholders, then one cell per day of the month, with nothing trailing |
| CalendarGrid.CalendarViewLayout | components/CalendarGrid.tsx:117-124 | the rendered month is `startDay` placeholders and then, at position i, the cell of day i - startDay + 1, up to the month's length, with nothing trailing |
| CalendarGrid.GridOfDays | components/DayGrid.tsx:31-59 | the grid of days 1..n after `lead` placeholders holds day i - lead + 1 at position i past the placeholders |
| CalendarGrid.CalendarDayCell | components/DayGrid.tsx:35-57 | cell k of the month is day k + 1 with its formatted date; it has an entry exactly when the map holds that date, is in the future exactly when after today, and is never marked as today |
| CalendarGrid.PressReachesLookupIffEntry | components/CalendarGrid.tsx:84-90 | pressing a cell requests details exactly for a day cell that is not in the future and has an entry, and the request is for that cell's formatted date |
| Navigation.PreviousMonth | components/CalendarGrid.tsx:68-74 | stepping back yields a valid date |
| Navigation.NextMonth | components/CalendarGrid.tsx:76-82 | stepping forward yields a valid date |
| Navigation.SetMonthStep | components/CalendarGrid.tsx:70-71 | `setMonth` lands on the target month when the day fits and otherwise on the next month with the surplus days; the time of day is kept and the day never grows |
| Navigation.MinDate | components/CalendarGrid.tsx:18 | the lower bound is 1 February 2025 at midnight |
| Navigation.Today | components/CalendarGrid.tsx:19-20 | today is the current date at midnight |
| Navigation.MaxMonth | components/CalendarGrid.tsx:21 | the upper bound is a valid midnight on a 1st, and for years outside 0..99 it is the 1st of today's month |
| Navigation.IsAtMinMonth | components/CalendarGrid.tsx:23 | the displayed date is at the minimum exactly when it is before 1 February 2025, or is that day at midnight |
| Navigation.IsAtMaxMonth | components/CalendarGrid.tsx:24-26 | for years outside 0..99, the displayed date is at the maximum exactly when its year and month are today's |
| Navigation.BackFromMarch31 | components/CalendarGrid.tsx:68-74 | from 31 March 2025, Previous shows 3 March 2025 |
| Navigation.AfterMinDateMeansFebruaryOrLater | components/CalendarGrid.tsx:23 | any instant of January 2025 or earlier is at the minimum, and past it the month is February 2025 or later |
| Navigation.NextNoOpIffAtMax | components/CalendarGrid.tsx:76-82 | Next changes the displayed date exactly when it is not in today's month |
| Navigation.PreviousNoOpIffAtMin | components/CalendarGrid.tsx:68-74 | Previous changes the displayed date exactly when it is after the minimum instant |
| Navigation.JanuaryIsReachable | components/CalendarGrid.tsx:68-74 | Previous from mid-February 2025 shows the same day of January 2025, and there Previous is blocked |
| Navigation.InvariantInitially | components/CalendarGrid.tsx:16-21 | the calendar opens on a date that satisfies the navigation invariant |
| Navigation.PreviousKeepsInvariant | components/CalendarGrid.tsx:68-74 | Previous keeps the day at most today's and the month between January 2025 (or today's month, if earlier) and today's month |
| Navigation.NextKeepsInvariant | components/CalendarGrid.tsx:76-82 | Next keeps the same invariant |
| Navigation.Navigate | components/CalendarGrid.tsx:68-82 | any sequence of presses yields a valid date |
| Navigation.NavigationBounds | components/CalendarGrid.tsx:16-82 | after any sequence of presses the invariant still holds |
| Navigation.NavigationFromNow | components/CalendarGrid.tsx:16-26 | from today's date, any presses show a month between January 2025 and today's month, with a day at most today's |
| MonthlyCount.CountInMonth | context/MonthlyCountProvider.tsx:75-85 | the count never exceeds the number of entries |
| MonthlyCount.MonthlyCount | context/MonthlyCountProvider.tsx:68-86 | the loop counts exactly the entries in the current local month; an empty list gives 0 |
| MonthlyCount.CountAppend | context/MonthlyCountProvider.tsx:76-84 | the count of two lists put together is the sum of their counts |
| MonthlyCount.CountPermutation | context/MonthlyCountProvider.tsx:76-84 | reordering the entries does not change the count |
| MonthlyCount.CountExtremes | context/MonthlyCountProvider.tsx:75-85 | the count is the whole list exactly when every entry is in the month, and 0 exactly when none is |
| MonthlyCount.OtherYearNotCounted | context/MonthlyCountProvider.tsx:78-80 | an entry in the same month of another year adds nothing |
| MonthlyCount.BeginFetch | context/MonthlyCountProvider.tsx:44 | the fetch starts by turning loading on and keeps the entries |
| MonthlyCount.FinishFetch | context/MonthlyCountProvider.tsx:54-65 | the fetch ends with loading off, holding the delivered list on success and the empty list on a non-ok response or a throw |
| MonthlyCount.FetchLast31 | context/MonthlyCountProvider.tsx:43-66 | a whole fetch, from any state, ends with loading off and the delivered list on success, the empty list otherwise |
| MonthlyCount.InitialState | context/MonthlyCountProvider.tsx:40-41 | the provider starts with no entries and loading on |
| MonthlyCount.InitialCountIsZero | context/MonthlyCountProvider.tsx:40-41 | before the first fetch completes the count is 0 and loading is on |
| MonthlyCount.FailedFetchCountsZero | context/MonthlyCountProvider.tsx:54-65 | after a failed fetch the count is 0 and loading is off |

## Left out

- Network requests (`fetch`, `response.json()`) are left out. The model takes their outcomes as inputs (`DaysResponse`, `FetchOutcome`).
- The detail request after a press and its modal are left out. The model stops at the gate that decides whether the request is made.
- Logging is left out: the `console.error` calls of the day-listing fetch (components/CalendarGrid.tsx:43), of the detail request and of the monthly fetch (context/MonthlyCountProvider.tsx:61).
- The entry map is a plain JavaScript object. Inherited names such as `toString` are truthy there without being listed, and `__proto__` adds no own key. The model's map has none of this, so its "entry exactly when listed" is stronger than JavaScript. No lookup can reach such a name, because every key looked up is a `formatDate` output containing `-`.
- Time zones and daylight saving are left out. Local time is one uniform timeline. The UTC-to-local conversion of the counter is a parameter, `toLocal`.
- Reading the clock (`new Date()`) is left out: now and today are parameters.
- `Date` range limits (TimeClip) and Invalid Date inside the calendar are left out. Years are unbounded integers.
- Number-to-string conversion is left out for values whose decimal form is not plain digits. Only integers are printed.
- The locale month title (`toLocaleString`) is left out. So are all colours, sizes and the iPad padding.
- The React lifecycle is left out: effects, re-renders, memoisation and races between overlapping fetches.
- Nothing checks that `data.data` is an array. The model assumes it is a list of strings.
- `activeOpacity` is modelled in tenths (6 and 10) rather than as floating point.
- DateKey.FormatDateRoundTrip: proved only for four-digit years. Other years give keys of another length, or, for years -999..-100, a ten-character key that does not parse (NegativeYearKeyDoesNotParse).
- DateKey.FormatDateInjective: proved only for four-digit years.
- Navigation.NextKeepsInvariant: assumes today's year is outside 0..99. For those years `new Date(y, m, 1)` means 1900 + y.
- Navigation.NavigationBounds: assumes today's year is outside 0..99, for the same reason.
- Navigation.NavigationFromNow: assumes the current year is outside 0..99 and the current month is January 2025 or later.
- CalendarGrid.StartDayCycle: assumes the year and the next year are outside 0..99.
- CalendarGrid.CalendarDayCell: assumes the displayed year is outside 0..99. It also assumes `today` is a midnight, as `setHours(0, 0, 0, 0)` makes it.
- CalendarGrid.CalendarView: models only the day grid of the rendered tree. The month title, the week header and the navigation buttons are not modelled. CalendarViewLayout names the cells through CellFor, and CalendarDayCell and PressReachesLookupIffEntry state what those cells mean.
- Navigation.PreviousMonth: states only validity. Its effect is stated by SetMonthStep and PreviousNoOpIffAtMin.
- Navigation.NextMonth: states only validity. Its effect is stated by SetMonthStep and NextNoOpIffAtMax.

## Findings

| source | as written | input that shows it | evidently intended | confidence | as-written member | corrected member |
|---|---|---|---|---|---|---|
| components/DayGrid.tsx:50-57 | the grid renders each `DayCell` without an `isToday` prop, so the cell's `isToday` (components/DayCell.tsx:9, 25-26) is always undefined | any displayed month that contains today, with no entry for today: today's cell gets the disabled background and dimmed text | today's cell without an entry gets the today background and bright text | high (the prop is declared and styled but never passed), not executed | DayGrid.TodayNeverHighlighted | DayGrid.TodayHighlightedWhenPassed |

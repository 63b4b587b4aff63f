# Calendar component — a Dafny model

This project models the logic of a React month-calendar component,
`src/components/Calendar.jsx`. The component shows one month as a grid of six
weeks of seven days, Sunday first. It lets the user move one month back or
forward and choose a day. For the chosen day it lists events, and the user adds
an event by typing a title. The event is stored after a short delay, and during
that delay a flag blocks a second submission. Each day cell shows a badge with
its number of events.

The model has four modules:

- `Text` (`text.dfy`): the string operations the component relies on. These are
  `String(n)` for the labels and keys (`NatToString`, `IntToString`, with a parser
  that reads digits back), and `String.prototype.trim` (`Trim`) with the
  ECMAScript whitespace set.
- `Gregorian` (`gregorian.dfy`): the JavaScript `Date` at day granularity. It
  writes out the proleptic Gregorian arithmetic of ECMA-262, section 21.4.1:
  - `DayFromYear`, the year search, `MonthFromTime` and `DateFromTime`;
  - `MakeDay`, with its carrying of out-of-range months and days;
  - `WeekDay`.

  On top of that it defines `new Date(y, m, d)` (`NewDate`) and the helpers
  `getDaysInMonth`, `getMonthStartDay`, `addMonths` and `isSameDate`. A date
  is a normalised triple `CalendarDate(year, month, day)` with a zero-based
  month.

  The `Date` constructor reads a year argument in 0..99 as 1900 + year
  (`MakeFullYear`, ECMA-262, section 21.4.2.1). `setMonth` does not, so
  `addMonths` keeps such years (`CivilDate`). `getDaysInMonth` and
  `getMonthStartDay` build their dates with the constructor, so they answer for
  the year `MakeFullYear` reads. `DaysInMonth` and `MonthStartDay` are the
  Gregorian answers for the year as given. The contracts of the constructor-based
  members are stated through them, for every year.
- `CalendarGrid` (`grid.dfy`): `getCalendarMatrix` as an imperative method. The
  loops push leading, current-month and trailing cells into a list, then cut it
  into weeks. The method is proved against `CellAt`/`Layout`, a reference
  definition of what sits at each of the 42 positions. Lemmas about that
  definition give the properties of the grid:
  - the number of current-month cells;
  - contiguity from the month's first weekday;
  - labels that read back as the day numbers;
  - empty padding;
  - distinct keys.
- `CalendarView` (`view.dfy`): the component's state as a class `Calendar`. The
  handlers are methods on it:
  - month navigation;
  - choosing a cell;
  - typing a title;
  - submitting an event;
  - the delayed callback that stores the event.

  Pure functions beside the class give the event store, the submission guard,
  the clamping of the chosen day, the badge text and the cell marks.

`getCalendarMatrix` is spread over several methods:

- `GetCalendarMatrix` computes the month's first weekday and the two month
  lengths.
- `FillMatrix` runs the four loops of the source in order on those values.
- Each loop is its own method: `PushLeadingCells`, `PushMonthDays`,
  `PushTrailingCells` and `ChunkWeeks`.

Every method is proved equal to `Layout`, so recomputing the grid for the same
month always gives the same grid.

The code gives padding cells the label `""` and no date. The day numbers of
padding cells appear only in their keys (`PaddingDays`).

## Model

| member | source | states |
|---|---|---|
| `Text.NatToString` | src/components/Calendar.jsx:46 | `String(day)` is never empty |
| `Text.ParseNatToString` | src/components/Calendar.jsx:46 | the rendered number is all digits and reads back as the number |
| `Text.NatToStringDigits` | src/components/Calendar.jsx:46 | the rendering is digits only, a single digit exactly below 10, and has no leading zero |
| `Text.IntToString` | src/components/Calendar.jsx:45 | `String(i)` of an integer in a key is never empty (sign and injectivity in IntToStringSign and IntToStringInjective) |
| `Text.IntToStringInjective` | src/components/Calendar.jsx:37-55 | distinct integers give distinct strings in a template key |
| `Text.IntToStringSign` | src/components/Calendar.jsx:45 | a rendered integer starts with `-` exactly when negative, with a digit otherwise |
| `Text.Trim` | src/components/Calendar.jsx:141 | the trimmed text neither starts nor ends with whitespace |
| `Text.TrimStart` | src/components/Calendar.jsx:141 | leading whitespace removed: the result is a suffix, and what was dropped is whitespace |
| `Text.TrimEnd` | src/components/Calendar.jsx:141 | trailing whitespace removed: the result is a prefix, and what was dropped is whitespace |
| `Text.TrimIsSlice` | src/components/Calendar.jsx:152 | the stored title is a contiguous piece of the typed one, with only whitespace cut at either end |
| `Text.TrimEmptyIffBlank` | src/components/Calendar.jsx:141 | `!eventTitle.trim()` holds exactly when the title is all whitespace |
| `Text.TrimIdempotent` | src/components/Calendar.jsx:152 | trimming an already trimmed title changes nothing |
| `Text.TrimOfTrimmed` | src/components/Calendar.jsx:152 | a title whose ends are not whitespace is left as it is by trimming |
| `Gregorian.DaysInMonth` | src/components/Calendar.jsx:6-8 | the Gregorian length of a month of any year, the month index carried into the year, is between 28 and 31 (exact lengths in FebruaryLength and MonthLengths) |
| `Gregorian.GetDaysInMonth` | src/components/Calendar.jsx:6-8 | the length of the month in the year `new Date` reads, between 28 and 31; DaysInMonthIsDayZero ties it to `new Date(year, month + 1, 0).getDate()` |
| `Gregorian.DaysInMonthIsDayZero` | src/components/Calendar.jsx:6-8 | the date of day 0 of the following month is `getDaysInMonth`; without the year mapping it is the Gregorian length DaysInMonth |
| `Gregorian.FebruaryLength` | src/components/Calendar.jsx:6-8 | February has 29 days exactly in leap years and 28 otherwise; `getDaysInMonth(y, 1)` is 29 exactly when MakeFullYear(y) is a leap year |
| `Gregorian.LeapYearExamples` | src/components/Calendar.jsx:6-8 | February has 29 days in 2000 and 2024, and 28 in 1900 and 2023 |
| `Gregorian.MonthLengths` | src/components/Calendar.jsx:6-8 | in every year, 30 days exactly for April, June, September and November and 31 exactly for the other months but February, for DaysInMonth and `getDaysInMonth` alike |
| `Gregorian.MonthsForwardYear` | src/components/Calendar.jsx:6-8 | month index `m + 12` is month `m` of the next year; for `getDaysInMonth(y, m + 12)` that is the year after MakeFullYear(y) |
| `Gregorian.MonthBeforeJanuary` | src/components/Calendar.jsx:30 | month -1 is December of the year before MakeFullYear(y), with 31 days |
| `Gregorian.Carry` | src/components/Calendar.jsx:16 | an overflowing month index becomes a month in 0..11 the same number of months from year 0 |
| `Gregorian.CarryIsFloorDivision` | src/components/Calendar.jsx:16 | the carry is year + floor(month / 12), month modulo 12 |
| `Gregorian.MakeFullYear` | src/components/Calendar.jsx:48 | a year in 0..99 becomes the year of 1900..1999 with the same last two digits; every other year is kept |
| `Gregorian.CivilDate` | src/components/Calendar.jsx:16 | the date `setMonth` builds is valid and lies on day number MakeDay(y, m, d), the year taken as it is |
| `Gregorian.CivilDateIs` | src/components/Calendar.jsx:16 | that date is the one valid date on that day number |
| `Gregorian.CivilDateFirst` | src/components/Calendar.jsx:16 | day 1 of a month index is the first of the month the index names once carried into the year |
| `Gregorian.NewDate` | src/components/Calendar.jsx:48 | `new Date(y, m, d)` is a valid date whose day number is MakeDay(MakeFullYear(y), m, d) |
| `Gregorian.NewDateInMonth` | src/components/Calendar.jsx:48 | a day within its month, built with the constructor, is that day of that month in the year MakeFullYear reads |
| `Gregorian.NewDateOfValid` | src/components/Calendar.jsx:48 | building a valid date gives it back outside the years 0..99; in 0..99 it moves to the same day of 1900 + year, or to 1 March when that year's February is shorter |
| `Gregorian.NewDateFirst` | src/components/Calendar.jsx:127 | `new Date(y, m, 1)` is day 1 of month m carried into the year MakeFullYear(y) |
| `Gregorian.NewDateIs` | src/components/Calendar.jsx:127-133 | `new Date(y, m, d)` is the one valid date with day number MakeDay(MakeFullYear(y), m, d) |
| `Gregorian.DayNumberInjective` | src/components/Calendar.jsx:70-77 | two valid dates on the same day number are the same triple |
| `Gregorian.DateOfDayNumber` | src/components/Calendar.jsx:48 | a valid date is the date of its own day number |
| `Gregorian.MakeDayInYear` | src/components/Calendar.jsx:48 | for a month in 0..11, MakeDay is the year's first day number plus the days of the earlier months plus the date minus 1 |
| `Gregorian.MakeDayOffset` | src/components/Calendar.jsx:48 | day d of a month is d - 1 day numbers after its first day |
| `Gregorian.MakeDayNextMonth` | src/components/Calendar.jsx:7 | the first of the next month index is the first of this month plus the month's length |
| `Gregorian.WeekDay` | src/components/Calendar.jsx:11 | the weekday of a day number is in 0..6 |
| `Gregorian.GetDay` | src/components/Calendar.jsx:11 | `getDay()` of a date is in 0..6 |
| `Gregorian.MonthStartDay` | src/components/Calendar.jsx:10-12 | the weekday of the first of a month of any year is in 0..6 (its relation to the dates in WeekDayOfDate) |
| `Gregorian.GetMonthStartDay` | src/components/Calendar.jsx:10-12 | the weekday, in 0..6, the month starts on in the year `new Date` reads |
| `Gregorian.MonthStartDayIsGetDay` | src/components/Calendar.jsx:10-12 | `new Date(y, m, 1).getDay()` is `getMonthStartDay(y, m)`; the first of the carried month falls on MonthStartDay |
| `Gregorian.NextMonthStartDay` | src/components/Calendar.jsx:10-12 | the next month starts on (start + length) mod 7, for MonthStartDay and for `getMonthStartDay` alike |
| `Gregorian.WeekDayOfDate` | src/components/Calendar.jsx:10-12 | day d of a month falls on (MonthStartDay + d - 1) mod 7 in every year, and on (`getMonthStartDay` + d - 1) mod 7 outside the years 0..99 |
| `Gregorian.TwoDigitYearLength` | src/components/Calendar.jsx:6-8 | February of year 0 has 29 days, but `getDaysInMonth(0, 1)` is 28 |
| `Gregorian.TwoDigitYearStartDay` | src/components/Calendar.jsx:10-12 | January of year 50 starts on weekday 6, but `getMonthStartDay(50, 0)` is 0, and `new Date(50, 0, 1)` is 1 January 1950 |
| `Gregorian.AddMonths` | src/components/Calendar.jsx:14-18 | the result is a valid date on the day number MakeDay(year, month + amount, day), with no year mapping |
| `Gregorian.AddMonthsFromFirst` | src/components/Calendar.jsx:14-18 | from a first of month the result is the first of the month `amount` months on |
| `Gregorian.AddMonthsCompose` | src/components/Calendar.jsx:14-18 | from a first of month, moving by a then by b is moving by a + b |
| `Gregorian.IsSameDate` | src/components/Calendar.jsx:70-77 | true exactly when both dates are present and equal |
| `Gregorian.IsSameDateMeaning` | src/components/Calendar.jsx:70-77 | false when either date is missing; otherwise true exactly when both are the same day |
| `Gregorian.IsSameDateEquivalence` | src/components/Calendar.jsx:70-77 | on present dates it is reflexive, symmetric and transitive |
| `CalendarGrid.PrevKey` | src/components/Calendar.jsx:37 | a leading key starts with `prev-` (distinctness in KeysDistinct) |
| `CalendarGrid.DayKey` | src/components/Calendar.jsx:45 | a day key starts with a digit or a minus sign (distinctness in KeysDistinct) |
| `CalendarGrid.NextKey` | src/components/Calendar.jsx:55 | a trailing key starts with `next-` (distinctness in KeysDistinct) |
| `CalendarGrid.FrameOf` | src/components/Calendar.jsx:28-30 | the start day is in 0..6 and both month lengths are in 28..31 |
| `CalendarGrid.CellIn` | src/components/Calendar.jsx:34-60 | only a current-month cell carries a date and a non-empty label, and its date is a real one |
| `CalendarGrid.CellAt` | src/components/Calendar.jsx:34-60 | exactly the cells of the current month carry a real date |
| `CalendarGrid.Layout` | src/components/Calendar.jsx:53 | the grid holds 42 cells |
| `CalendarGrid.GetCalendarMatrix` | src/components/Calendar.jsx:24-68 | six weeks of seven cells; cell (r, c) is position 7r + c of the month's layout |
| `CalendarGrid.FillMatrix` | src/components/Calendar.jsx:32-67 | the three push loops and the slicing loop produce, row by row, the reference cell of each position |
| `CalendarGrid.PushLeadingCells` | src/components/Calendar.jsx:34-41 | one cell per weekday before the first, each the reference cell of its position |
| `CalendarGrid.PushMonthDays` | src/components/Calendar.jsx:43-50 | one cell per day of the month follows, each the reference cell of its position |
| `CalendarGrid.PushTrailingCells` | src/components/Calendar.jsx:52-60 | cells of the next month are pushed until there are exactly 42, each the reference cell of its position |
| `CalendarGrid.ChunkWeeks` | src/components/Calendar.jsx:62-65 | six slices of seven; cell (r, c) is cell 7r + c of the list |
| `CalendarGrid.CurrentMonthRun` | src/components/Calendar.jsx:34-60 | a cell is in the current month exactly when its position is in start..start+length-1 |
| `CalendarGrid.CurrentMonthCount` | src/components/Calendar.jsx:43-50 | the grid has as many current-month cells as the month has days |
| `CalendarGrid.DayCell` | src/components/Calendar.jsx:43-50 | day d sits at start + d - 1, is labelled `String(d)`, carries day d of the month in the year MakeFullYear reads, and its column is that date's weekday |
| `CalendarGrid.PaddingCell` | src/components/Calendar.jsx:34-60 | cells outside the month have label "" and no date |
| `CalendarGrid.PaddingDays` | src/components/Calendar.jsx:34-60 | leading keys end at the previous month's last day; trailing keys count the next month from 1 |
| `CalendarGrid.TrailingCells` | src/components/Calendar.jsx:52-60 | at least five trailing cells follow the month |
| `CalendarGrid.KeysDistinct` | src/components/Calendar.jsx:34-60 | no two cells of a grid share a key |
| `CalendarView.EventsOn` | src/components/Calendar.jsx:111-112 | a day with no entry in the store has no events |
| `CalendarView.WithEvent` | src/components/Calendar.jsx:148-158 | the day's list gains the record at its end with its earlier records in order; every other day is unchanged |
| `CalendarView.AppendKeepsDayList` | src/components/Calendar.jsx:149-153 | pushing a record filed under its day with a trimmed non-blank title keeps the day's list well formed |
| `CalendarView.WithEventKeepsInvariant` | src/components/Calendar.jsx:147-158 | storing a trimmed non-blank title keeps every list non-empty, filed under its day and trimmed |
| `CalendarView.CanSubmit` | src/components/Calendar.jsx:141 | a submission goes ahead only with a chosen day and none waiting (the title case in CanSubmitMeaning) |
| `CalendarView.CanSubmitMeaning` | src/components/Calendar.jsx:141 | a submission is refused exactly when the title is blank, no day is chosen, or a submission waits |
| `CalendarView.Min` | src/components/Calendar.jsx:129-132 | `Math.min`: at most both arguments, and one of them |
| `CalendarView.SelectionAfterNavigate` | src/components/Calendar.jsx:125-134 | the new choice is a valid date |
| `CalendarView.SelectionInTargetMonth` | src/components/Calendar.jsx:125-134 | the new choice lies in the new month of the year `new Date` reads, on min(old day, month length), or on day 1 when nothing was chosen |
| `CalendarView.SelectionKeepsDay` | src/components/Calendar.jsx:129-133 | a day the new month has is kept, in the year `new Date` reads |
| `CalendarView.SelectionClampExample` | src/components/Calendar.jsx:129-133 | 31 March moved to April becomes 30 April, in the year `new Date` reads |
| `CalendarView.SelectionLeavesMonth` | src/components/Calendar.jsx:125-134 | moving to January of year 50, the new choice lies in 1950 |
| `CalendarView.IntendedSelection` | src/components/Calendar.jsx:125-134 | the choice built with the year as it is, a valid date |
| `CalendarView.IntendedSelectionInTargetMonth` | src/components/Calendar.jsx:125-134 | it lies in the month shown for every year, on min(old day, month length) or on day 1, and equals the component's choice outside the years 0..99 |
| `CalendarView.IndicatorLabel` | src/components/Calendar.jsx:210-211 | the badge has at most two characters and is empty exactly for no events |
| `CalendarView.IndicatorLabelCases` | src/components/Calendar.jsx:210-211 | "" exactly for 0 events, the single digit of the count for 1..9, "9+" above 9 |
| `CalendarView.SelectedEvents` | src/components/Calendar.jsx:110-112 | with no chosen day the list is empty |
| `CalendarView.CellEvents` | src/components/Calendar.jsx:205-209 | a padding cell, or a cell without a date, counts no events |
| `CalendarView.CellIsMarked` | src/components/Calendar.jsx:199-204 | a cell is marked exactly when it is in the current month and holds the given date |
| `CalendarView.MarkedCellIsTheDay` | src/components/Calendar.jsx:199-204 | a cell is marked exactly when the date lies in the grid's month of the year MakeFullYear reads and the cell is that day's, so at most one cell is marked |
| `CalendarView.MarkedCellShowsSelectedEvents` | src/components/Calendar.jsx:205-209 | the chosen cell counts the same events the list beside the grid shows |
| `CalendarView.Calendar.constructor` | src/components/Calendar.jsx:80-89 | the first of today's month (as `new Date` reads its year) is shown, today is chosen, and there are no events, no title and nothing waiting |
| `CalendarView.Calendar.NavigateMonth` | src/components/Calendar.jsx:122-137 | the month shown moves by `offset` months, the choice moves as SelectionAfterNavigate says, and nothing else changes |
| `CalendarView.Calendar.SelectCell` | src/components/Calendar.jsx:233-246 | only a current-month cell with a date becomes the choice; other clicks change nothing |
| `CalendarView.Calendar.EditTitle` | src/components/Calendar.jsx:297-298 | the title follows the input unless a submission waits |
| `CalendarView.Calendar.SubmitEvent` | src/components/Calendar.jsx:139-147 | refused unless CanSubmit; otherwise the flag is set and the callback is bound to the chosen day and the typed title; the store is untouched |
| `CalendarView.Calendar.FireSubmitTimeout` | src/components/Calendar.jsx:147-162 | the store becomes WithEvent of the trimmed title under the captured day; the title is cleared, the flag reset and no callback remains |
| `CalendarView.Calendar.ShownEvents` | src/components/Calendar.jsx:110-112 | with no chosen day, no events are listed |

## Left out

- Rendering is not modelled: JSX, CSS classes, ARIA attributes, focus and the
  weekday header.
- The keyboard path of choosing a cell (lines 237-246) is not modelled apart
  from the click path. It makes the same state change, and `SelectCell` stands
  for both.
- Locale formatting is not modelled: the month title (`toLocaleString`), the
  chosen date's heading and the cells' ARIA labels (`toLocaleDateString`).
- `getDateKey` (`toISOString`) is not modelled. The event store is keyed by the
  local date triple. The real key is the date in UTC, which for time zones
  east of UTC names the day before local midnight. Time zones are left out, so
  that shift is not captured.
- The time of day, time zones, daylight saving and millisecond precision are
  not modelled. A `Date` is modelled at day granularity. The initial chosen
  date `new Date()` is the input `today`, a date with no time.
- Clock reads are inputs. `today` is passed to the constructor. `Date.now()`
  is the `stamp` parameter of `FireSubmitTimeout`. The event id is the pair of
  the day and the stamp rather than the string `${key}-${stamp}`, and ids are
  not proved distinct.
- `setTimeout` and its 200 ms delay are not modelled. The delayed callback is
  the separate atomic step `FireSubmitTimeout`, which the environment may run
  at any time while a submission waits.
- `clearTimeout` at lines 143-145 is not modelled. It cannot fire, because
  `Valid()` ties a waiting callback to the submitting flag.
- The unmount cleanup (lines 114-120) is not modelled.
- React's state batching and hooks are not modelled. They are replaced by the
  fields of `Calendar`, and each handler runs to completion as one step.
- CalendarView.Calendar.ShownEvents: its contract states only that no events are listed
  when no day is chosen. Which list is shown is `SelectedEvents`, and the
  chosen cell is tied to it by `MarkedCellShowsSelectedEvents`.
- CalendarView.Calendar.EditTitle: the `disabled` attribute of the input is modelled as
  the handler ignoring input while a submission waits.
- CalendarView.MarkedCellShowsSelectedEvents: holds only because the model keys
  the store by the date triple and the chosen date has no time of day. In the
  component the initial choice `new Date()` (line 84) keeps the time of day and
  is keyed by its UTC date (lines 21 and 110). Today's cell holds local midnight
  (line 48) and is keyed the same way (line 207). East of UTC the two keys can
  name different days, so the list beside the grid and the marked cell can read
  different days' events.
- Text.IntToString: JavaScript writes numbers of magnitude 10^21 and more in
  exponent notation. The model writes every integer in plain digits, which
  agrees for the years, month indexes and days the calendar renders.
- Gregorian.NewDate: the time value is not clipped (TimeClip). Beyond about
  273,790 years from 1970 the component gets an Invalid Date and `NaN`
  lengths, while the model keeps counting days.
- Gregorian.AddMonths: the same TimeClip bound is not modelled for `setMonth`.

## Findings

The component model keeps the code as written: `NewDate` applies
`MakeFullYear`, and `getDaysInMonth`, `getMonthStartDay`, the grid's dates and
the choice after navigating follow it. The corrected definitions
(`DaysInMonth`, `MonthStartDay`, `CivilDate`, `IntendedSelection`) take the
year as it is, and the contracts of the as-written members are stated through
them. A year in 0..99 is reached by moving back month by month, because
`setMonth` keeps the year.

| source | as written | input that shows it | evidently intended | confidence | as-written member | corrected member |
|---|---|---|---|---|---|---|
| src/components/Calendar.jsx:6-8 | `new Date(year, month + 1, 0)` reads a year in 0..99 as 1900 + year | `getDaysInMonth(0, 1)` is 28, the length of February 1900 | 29, the length of February of year 0, a leap year | high; not executed | `Gregorian.TwoDigitYearLength` | `Gregorian.FebruaryLength` |
| src/components/Calendar.jsx:10-12 | `new Date(year, month, 1).getDay()` and the cells' `new Date(year, month, day)` (line 48) lay out and date the month of 1900 + year | the grid of January of year 50: `getMonthStartDay(50, 0)` is 0 (1 January 1950) and the cells hold 1950 dates | start day 6 and cells dated in year 50 | high; not executed | `Gregorian.TwoDigitYearStartDay` | `Gregorian.WeekDayOfDate` |
| src/components/Calendar.jsx:125-134 | the new choice is `new Date(next.getFullYear(), next.getMonth(), day)` | moving to January of year 50: the choice lands in January 1950 | a day of the month shown | high; not executed | `CalendarView.SelectionLeavesMonth` | `CalendarView.IntendedSelectionInTargetMonth` |

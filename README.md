# Calendar widget: a verified Dafny model

This project models the month-view calendar widget of `calendar.js`. The
widget keeps two pieces of state:

- a displayed date `currentDate`;
- an event table `events`, mapping a date string to the events added under
  it, oldest first.

Its handlers are:

- draw the grid of the displayed month (`renderCalendar`);
- open a popup listing one day's events (`showEventsPopup`);
- move one month back or forward (`setMonth`);
- jump to a year chosen in a dropdown (`setFullYear`);
- add an event from a form.

The model has three modules:

- `DateMath` (`dates.dfy`): the ECMAScript Date arithmetic the widget relies
  on (ECMA-262, section 21.4.1: DayFromYear, MakeDay, WeekDay, and the
  reading back of a day number as year, month and day-of-month). Dates are
  `(year, month 0..11, day)` triples. A day number counts days from
  1970-01-01, which was a Thursday.
  - `Normalize` carries an out-of-range day-of-month into the neighbouring
    months. It is proved to land on the day number MakeDay computes.
  - The day number is proved one-to-one on valid dates, so the result is
    the only date with that day number.
  - `SetMonth` and `SetFullYear` are MakeDay on the displayed date.
- `Text` (`text.dfy`) covers:
  - decimal numbers as a template literal prints them;
  - the unpadded `${year}-${month + 1}-${day}` keys;
  - the zero-padded `YYYY-MM-DD` strings a date field produces;
  - `String.prototype.trim`.
- `Widget` (`widget.dfy`): the class `Calendar`, with fields `year`,
  `month`, `day` and `events`, and one method per handler.
  - Each method's contract states the new state and what the method draws
    or lists.
  - The grid is described by the predicate `IsGrid`. The lemmas beside it
    state the grid's shape, its uniqueness, and which stored keys can mark
    a cell.

Points where the behaviour of `calendar.js` is easy to misread, and which
the model follows as written:

- The grid starts with exactly as many blank cells as the weekday of the
  1st (0 for Sunday). It does not start with that number minus one.
- "Prev" and "next" call `setMonth` on the full date. A day-of-month the
  target month lacks therefore spills over into the month after it:
  - January 31 plus "next" is March 3, or March 2 in a leap year.
  - From a day up to 28, a step is exactly one month, with the year rolling
    over at December and January, and "prev" then "next" comes back to the
    same date.
  - From March 31, "prev" lands on March 3 (March 2 in a leap year), and
    "next" then goes on to April 3 (or April 2). It does not go back to
    March 31.
- Choosing a year keeps month and day, except that February 29 moved to a
  common year becomes March 1.
- The layout of the grid comes from `new Date(year, month, 1)` and
  `new Date(year, month + 1, 0)`.
  - That constructor reads years 0..99 as 1900..1999 (`ConstructorYear`).
  - The keys and the "current-day" test use the year itself.
- The form trims the name and the description but not the date. An entry is
  stored under the date string exactly as typed.
  - The grid looks up unpadded keys such as `2026-3-5`.
  - An event stored under a padded `2026-03-05` therefore marks no cell.
  - A `YYYY-MM-DD` string equals the rendered key of its date exactly when
    the year has four digits without a leading zero (1000 or later) and
    neither the month nor the day has a leading zero (`IsoDateIsKeyIff`).
- The event table starts empty (`calendar.js:20`).
- The clock is not read. The initial date and "today" are parameters of
  the constructor and of each drawing method.

## Model

| member | source | states |
|---|---|---|
| DateMath.YearLength | calendar.js:41 | Consecutive DayFromYear values differ by 366 exactly in leap years (divisible by 4, and not by 100 unless by 400) and by 365 otherwise. |
| DateMath.MonthStep | calendar.js:41 | The 1st of the next month lies DaysInMonth days after the 1st of this month, across the year boundary too. |
| DateMath.IsLeap | calendar.js:41 | The Gregorian leap-year rule of MakeDay's year lengths: divisible by 4, and not by 100 unless by 400. |
| DateMath.DaysInMonth | calendar.js:41 | A month has 28 to 31 days, and 29 exactly for February of a leap year. |
| DateMath.PrevNextInverse | calendar.js:103-111 | For the month carry alone, the helpers `NextMonth` and `PrevMonth` on a (year, month) pair: one month back then forward, or forward then back, returns to the same year and month, with December and January rolling the year. It says nothing about the day; see PrevThenNext for full dates. |
| DateMath.Normalize | calendar.js:104 | Carrying an out-of-range day-of-month into neighbouring months always yields a valid date (month 0..11, day within the month's length). |
| DateMath.NormalizeDayNumber | calendar.js:104 | The carried date has the day number of "day d counted from the 1st of month m", which is MakeDay's result. |
| DateMath.DateOfMakeDay | calendar.js:41 | MakeDay read back as a date is always a valid date. |
| DateMath.DateOfMakeDayNumber | calendar.js:41 | MakeDay folds the month into the year (floor division and modulo by 12) and then counts the day from the 1st of that month. |
| DateMath.WeekDay | calendar.js:40 | getDay() is a weekday index in 0..6. |
| DateMath.DayNumberInjective | calendar.js:41 | Two valid dates with the same day number are the same date. |
| DateMath.DateOfMakeDayUnique | calendar.js:41 | MakeDay's date is the only valid date at its day number. |
| DateMath.MakeDayKeepsValid | calendar.js:40 | MakeDay(y, m, d) of a valid date gives back that date, so the weekday of the 1st is the 1st's own weekday. The constructor's year mapping is ConstructorYear. |
| DateMath.LastDayOfMonth | calendar.js:41 | MakeDay(y, m + 1, 0) is the last day of month m, so its getDate() is the month's length, for December as well. The constructor's year mapping is ConstructorYear. |
| DateMath.ConstructorYear | calendar.js:40-41 | The year `new Date(y, m, d)` uses: y + 1900 for y in 0..99 (read as 1900..1999), and y itself for every other year; the result is never in 0..99. |
| DateMath.LeapYearExamples | calendar.js:41 | February has 29 days in 2024 and 2000, and 28 days in 2023 and 1900. |
| DateMath.FirstWeekDayOfNextMonth | calendar.js:40 | The weekday of the next month's 1st is this month's plus its length, modulo 7. |
| DateMath.EpochIsThursday | calendar.js:40 | 1970-01-01 has day number 0 and weekday 4 (Thursday). |
| DateMath.SetMonth | calendar.js:103-111 | setMonth(m) on a date always gives a valid date. |
| DateMath.SetFullYear | calendar.js:126 | setFullYear(y) on a date always gives a valid date. |
| DateMath.SetMonthOutcome | calendar.js:104 | setMonth(m) lands on month m, folded into the year, with the same day when that month is long enough. Otherwise it lands on the surplus day of the month after. |
| DateMath.NextKeepsDay | calendar.js:108-111 | From a day up to 28, "next" moves exactly one month on, and December goes to January of the next year. |
| DateMath.PrevKeepsDay | calendar.js:103-106 | From a day up to 28, "prev" moves exactly one month back, and January goes to December of the previous year. |
| DateMath.PrevThenNext | calendar.js:103-111 | From a valid date with a day up to 28, "prev" then "next" gives back the same date. |
| DateMath.NextThenPrev | calendar.js:103-111 | From a valid date with a day up to 28, "next" then "prev" gives back the same date. |
| DateMath.MarchThirtyFirstRoundTrip | calendar.js:103-111 | From March 31, "prev" gives March 3 (March 2 in a leap year) and "next" then gives April 3 (April 2), not March 31: the round trip fails when a step spills over. |
| DateMath.JanuaryThirtyFirstNext | calendar.js:108-111 | January 31 plus "next" is March 2 in a leap year and March 3 otherwise. |
| DateMath.SetFullYearOutcome | calendar.js:125-128 | setFullYear keeps month and day, except that February 29 in a common target year becomes March 1. |
| DateMath.NextClicks | calendar.js:108-111 | k clicks on "next", each a setMonth(month + 1) of the date before. |
| DateMath.PrevClicks | calendar.js:103-106 | k clicks on "prev", each a setMonth(month - 1) of the date before. |
| DateMath.NextClicksIndex | calendar.js:108-111 | From a day up to 28, k clicks on "next" advance the month index (12 * year + month) by k and keep the day. |
| DateMath.PrevClicksIndex | calendar.js:103-106 | From a day up to 28, k clicks on "prev" move the month index back by k and keep the day. |
| DateMath.WholeYearsOfClicks | calendar.js:103-111 | From a day up to 28, twelve clicks per year on "next" (or on "prev") reach the same month and day n years later (or earlier). |
| Text.NatStrDigits | calendar.js:66 | The decimal form of a non-negative number has at least one digit, no leading zero, and reads back as the number. |
| Text.IntStr | calendar.js:66 | An integer prints non-empty, starting with '-' exactly when it is negative. |
| Text.IntStrInjective | calendar.js:66 | Two integers print alike exactly when they are equal. |
| Text.DateKey | calendar.js:66 | The unpadded key `${year}-${month}-${day}` a day cell looks up. |
| Text.DateKeyInjective | calendar.js:66 | Two rendered keys are equal exactly when year, month and day are equal. |
| Text.IsoDateIsKeyIff | calendar.js:137-143 | A `YYYY-MM-DD` date string equals the rendered key of that date exactly when the year is 1000 or later and month and day both have two digits. |
| Text.PaddedIsoDateIsNoKey | calendar.js:137-143 | A `YYYY-MM-DD` string whose month or day has a leading zero equals no rendered key of any date. |
| Text.TrimStart | calendar.js:136 | The result is a suffix of the input, everything dropped is white space, and the result does not start with white space. |
| Text.TrimEnd | calendar.js:138 | The result is a prefix of the input, everything dropped is white space, and the result does not end with white space. |
| Text.Trim | calendar.js:136-138 | trim() never lengthens a value, and a non-empty result neither starts nor ends with white space. |
| Text.TrimMiddle | calendar.js:136-138 | trim() keeps the contiguous slice of the value that starts where the leading white space ends, and every character it drops, before or after that slice, is white space. |
| Text.TrimEmptyIff | calendar.js:140 | A value trims to "" exactly when it consists only of white space. |
| Text.TrimKeepsInner | calendar.js:136 | A non-empty value with no white space at either end trims to itself. |
| Text.TrimIdempotent | calendar.js:136 | Trimming a trimmed value changes nothing. |
| Widget.AddEvent | calendar.js:142-143 | The new event goes last under its key, after the earlier entries for that key, and the list is created when the key is absent. Every other key keeps its list. |
| Widget.EventLine | calendar.js:90 | One popup line: the name, ": " and the description. |
| Widget.Accepts | calendar.js:140 | The form's guard: a non-empty date string, and a name and a description that are non-empty once trimmed. |
| Widget.AcceptsIff | calendar.js:136-140 | An entry is accepted exactly when the date string is non-empty and both name and description contain a character that is not white space. |
| Widget.DayCell | calendar.js:56-69 | A day cell: its day number, its unpadded key, "current-day" exactly on today's date, and "has-event" exactly when the table holds the key. |
| Widget.IsGrid | calendar.js:40-75 | The grid of a month: as many blanks as the weekday of the 1st, then one DayCell per day of the month, with the layout taken in the constructor's year. |
| Widget.GridBounds | calendar.js:40-54 | A grid has 28 to 37 cells. The cells before the weekday of the 1st are blank and no later cell is. The last cell is the month's last day. |
| Widget.GridUnique | calendar.js:28-76 | The grid is determined by the displayed year and month, today and the event table. |
| Widget.DrawnIgnoresForeignKey | calendar.js:67-69 | Storing an event under a key that no day cell carries changes no cell. |
| Widget.PaddedKeyAbsent | calendar.js:66 | No day cell carries a zero-padded key whose month or day has a leading zero. |
| Widget.PaddedDateLeavesGrid | calendar.js:66-69 | Storing an event under a zero-padded date whose month or day has a leading zero leaves the whole grid unchanged, so no "has-event" mark appears. |
| Widget.MonthLayout | calendar.js:40-41 | Returns the weekday of the 1st and the month's length, for the year the Date constructor reads. |
| Widget.DrawMonth | calendar.js:43-75 | Returns exactly `lead` blanks and then one cell per day 1..length in order. Each day cell has its unpadded key, "current-day" exactly on today's date, and "has-event" exactly when the table holds its key. |
| Widget.Calendar.constructor | calendar.js:19-20 | The widget starts on the given date with an empty event table. |
| Widget.Calendar.Render | calendar.js:28-76 | Returns the grid of the displayed month (IsGrid) and changes nothing. |
| Widget.Calendar.ShowEvents | calendar.js:79-100 | The title is "Events on day MonthName year". The items are one "name: desc" line per stored event, in insertion order, or the single line "No events added yet." when the key is absent. |
| Widget.Calendar.Prev | calendar.js:103-106 | The displayed date becomes setMonth(month - 1) of the old date, the table is unchanged, and the returned cells are the new month's grid. |
| Widget.Calendar.Next | calendar.js:108-111 | The displayed date becomes setMonth(month + 1) of the old date, the table is unchanged, and the returned cells are the new month's grid. |
| Widget.Calendar.SelectYear | calendar.js:125-128 | The displayed date becomes setFullYear(selected) of the old date, the table is unchanged, and the returned cells are the new grid. |
| Widget.Calendar.Submit | calendar.js:134-148 | An entry is drawn exactly when it is accepted. A rejected entry leaves the table unchanged. An accepted one appends the trimmed name and description under the untrimmed date string, and returns the new grid; the displayed date never changes. |
| Widget.RejectBlankName | calendar.js:140 | A client: a name of white space only is refused and the table stays empty. |
| Widget.AddThenShow | calendar.js:79-100 | A client: an event added through the form is then listed as "name: desc" in its day's popup, while another day lists the placeholder line. |

## Left out

- Page elements are not modelled:
  - creating the cells and wiring their click listeners (calendar.js:45-47, 52-54, 72, 74);
  - the weekday labels (calendar.js:9-16);
  - the month and year label, and the year-select display (calendar.js:33-38);
  - the popup's element lookups and its display flag (calendar.js:80-82, 99);
  - the injected style sheet (calendar.js:152-184).

  A drawing is the list of cells it would show, and a popup is the title and
  lines it would show.
- Populating the year dropdown (calendar.js:114-123) only fills a page element and is left out. The selected year arrives as an integer parameter.
- `parseInt` of the selected value is left out: the year is already an integer, so a non-numeric value (NaN, Invalid Date) is not modelled.
- The success alert and the form reset (calendar.js:145-146) are page side effects and are left out.
- The clock (`new Date()` at calendar.js:19 and 56) is replaced by parameters: the initial date and "today".
- Time of day, the local time zone and daylight-saving shifts are left out. Dates are whole days in the proleptic Gregorian calendar.
- The ECMAScript time-value range is not modelled: years are unbounded, so a date beyond about 275,000 years does not become Invalid Date.
- Inherited property names are not modelled. `events` is a plain object, so a key such as `constructor` or `__proto__` would find an inherited property, whereas the map holds only stored keys. A submission under such a key finds the inherited value instead of creating a list, so the push at calendar.js:143 throws a TypeError and no event is stored; the model stores the event.
- A missing page element is not modelled, because every handler here assumes its elements exist.
- script.js and booking.js (page animation and effects) are not part of this model.

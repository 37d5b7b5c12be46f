# Family calendar: a verified model of the `FamilyCalendar` core

`script.js` defines one class, `FamilyCalendar`. It is a month-view family calendar that keeps its events in the browser's `localStorage`. The database handle is set to `null` at script.js:41, so the remote branches of `saveEvent` and `deleteEventById` never run. What remains is four pieces of logic, and this project models them in Dafny:

- **The month grid** (`renderCalendar`, the flags and events of `createDayElement`, `getEventsForDate`, `formatDate`). For a year and 0-based month, three counting loops emit 42 day cells. They are the leading cells of the month before, every day of the shown month, and the first days of the month after. Each cell is flagged `other-month` and `today` and carries the events whose `date` text is the cell's `YYYY-MM-DD`.
- **The in-memory collection** (`saveEvent`'s local branch, `deleteEventById`). Saving while editing overwrites the element at the first index with the edited id. Saving a new event pushes it. Deleting keeps every event with another id.
- **The drift watch** (the interval body in `fallbackToLocalStorage`) and the `storage` listener. Each adopts the stored collection.
- **Month navigation** (`previousMonth`, `nextMonth`): `setMonth(getMonth() ± 1)` on the current date.

There are five files, one module each:

- `CivilDate.dfy` models ECMAScript's date arithmetic on day numbers (days since 1970-01-01): `MakeDay`, the two-digit-year rule of the `Date` constructor, `getDay`, and the calendar date of a day (`Civil`).
- `DateFormat.dfy` holds `formatDate` and the parser that inverts it.
- `Events.dfy` has the event record and the collection operations (`filter`, `findIndex`, replacing an element).
- `Grid.dfy` is the grid. The `RenderMonth` method and its three loop helpers are proved equal to the `MonthGrid` function, and the lemmas state what that grid holds.
- `Calendar.dfy` is the `FamilyCalendar` class, whose methods update its fields as the source does, plus the lemmas about saving, deleting and navigating.

The grid is modelled as the code computes it. At script.js:290 the code takes `prevMonth` as day 0 of month `month - 1`, which is the last day of the month two before the shown one. Line 293 then counts back from that day count inside month `month - 1`. So the leading cells can leave a gap before the 1st (April 2024) or repeat its first days (March 2024). The comment at script.js:289 labels this loop as the dates of the previous month, so the evident intent is the last days of the month before, running straight on into the 1st. The model follows the code; the gaps and repeats are proved, with a corrected grid beside them (see Findings).

Two further behaviours of the code are modelled as written:

- Any cell whose date is today is flagged `today`, including a leading or trailing cell of a neighbouring month (script.js:325-328).
- A store item that is not valid JSON makes `JSON.parse` throw (script.js:207); the model's storage snapshot has no such input (see Left out).

## Model

| member | source | states |
|---|---|---|
| `Events.Filter` | script.js:363 | the result holds exactly the elements of the input that pass the test, and is never longer |
| `Events.FilterAppend` | script.js:363 | filtering a concatenation filters each part, so the kept events stay in collection order |
| `Events.FilterKeepsAll` | script.js:241 | a filter every element passes returns the collection unchanged |
| `Events.FindIndex` | script.js:223 | -1 exactly when no event has the id; otherwise an index holding that id with no earlier one |
| `Events.ReplaceFirst` | script.js:223-226 | same length; the first element with the id becomes the new event and every other element stays; with no match the collection is unchanged |
| `Events.RemoveById` | script.js:241 | an event remains exactly when it was present and its id differs from the deleted one |
| `Events.RemoveAbsentId` | script.js:241 | deleting an id no event has changes nothing |
| `Events.RemoveByIdIdempotent` | script.js:241 | deleting the same id twice is deleting it once |
| `Events.RemoveByIdAppend` | script.js:241 | deletion works piece by piece, so the remaining events keep their relative order |
| `Events.RemoveByIdSingle` | script.js:241 | a single event is dropped exactly when its id matches |
| `CivilDate.IsLeapYear` | script.js:283-284 | no contract of its own: the Gregorian leap-year rule that `Date` applies; `Grid.FebruaryLength` states that it decides February's length |
| `CivilDate.DaysInYear` | script.js:283-284 | no contract of its own: 366 days in a leap year, 365 otherwise; `CivilDate.DaysBeforeMonth` states that the twelve months fill it |
| `CivilDate.DaysBeforeMonth` | script.js:283-284 | the days before month 12 are the whole year |
| `CivilDate.DaysInMonth` | script.js:284 | every month has 28 to 31 days; `Grid.FebruaryLength` states February's two lengths |
| `CivilDate.MonthDays` | script.js:258 | a month number, rolled into its year as `MakeDay` rolls it, has 28 to 31 days |
| `CivilDate.DaysBeforeMonthStep` | script.js:284 | the cumulative month table advances by each month's length |
| `CivilDate.DayFromYear` | script.js:283 | no contract of its own: `DayFromYearIsFormula` states that it is ECMAScript's DayFromYear, `DayFromYearStep` how it advances |
| `CivilDate.DayFromYearIsFormula` | script.js:283 | counting years one by one from 1970 gives ECMAScript's closed-form day of January 1st |
| `CivilDate.DayFromYearStep` | script.js:283 | consecutive years start a year's length apart |
| `CivilDate.DayFromYearBounds` | script.js:283 | between two years lie 365 to 366 days per year |
| `CivilDate.YearFromDay` | script.js:280 | `getFullYear`: the year whose span contains the day |
| `CivilDate.MonthOfYear` | script.js:281 | `getMonth`: the month whose span within the year contains the day |
| `CivilDate.CivilSearch` | script.js:280-281 | every day has a valid date with that day number |
| `CivilDate.YearNear1970` | script.js:280 | the year of day t is at most t years (counted without sign) from 1970, which bounds the choice in `Civil` |
| `CivilDate.DayNumber` | script.js:283 | no contract of its own: `DayNumberInjective` and `CivilOfDayNumber` state that it numbers valid dates one to one and that `Civil` inverts it |
| `CivilDate.DayNumberInjective` | script.js:367-369 | two valid dates with the same day number are equal |
| `CivilDate.Civil` | script.js:280-281 | the date of a day is valid and its day number is the day |
| `CivilDate.CivilOfDayNumber` | script.js:367-369 | the date read back from a valid date's day number is that date |
| `CivilDate.CivilInjective` | script.js:367-369 | different days have different dates |
| `CivilDate.WeekDay` | script.js:285 | `getDay` is 0 (Sunday) to 6 |
| `CivilDate.MakeDay` | script.js:283-310 | no contract of its own: `MakeDayIsDayNumber`, `MakeDayValid` and `MakeDayCarry` state how it normalises months and days |
| `CivilDate.FullYear` | script.js:283-310 | no contract of its own: the two-digit-year rule of `new Date(y, m, d)`, used by `Grid.FirstOfMonth` and `Grid.StartDayFrom100` |
| `CivilDate.NewDate` | script.js:283-310 | no contract of its own: `Grid.FirstOfMonth` states it for the 1st, `Grid.CurrentDate` and `Grid.TrailingDate` for the cells |
| `CivilDate.MakeDayIsDayNumber` | script.js:283 | unfolds `MakeDay`'s definition: `new Date(y, m, d)` moves months outside 0..11 into the year and counts the day on from the 1st |
| `CivilDate.MakeDayOffset` | script.js:293 | day `d` of a month lies `d - 1` days after its 1st, for any `d` |
| `CivilDate.MakeDayValid` | script.js:301 | a day that exists in the normalised month lands on exactly that date |
| `CivilDate.MakeDayValidInYear` | script.js:301 | inside the year, `new Date(y, m, d)` is the date (y, m, d) |
| `CivilDate.MakeDayValidNextYear` | script.js:310 | month 12 is January of the next year |
| `CivilDate.MakeDayValidNextMonth` | script.js:310 | day `d` (up to 28) of month `m + 1` is that day of the next month, January of the next year after December |
| `CivilDate.MakeDayNextMonth` | script.js:310 | the 1st of month `m + 1` follows month `m`'s last day, across year ends too |
| `CivilDate.MakeDayCarry` | script.js:258 | days past a month's end carry into the next month |
| `CivilDate.MakeDayCarryValid` | script.js:258 | a day number past the month's end by up to three lands that many days into the next month |
| `CivilDate.LastDayOfMonth` | script.js:284 | day 0 of month `m + 1` is the last day of month `m` |
| `CivilDate.Year2024` | script.js:283 | January 1st 2024 is day 19723 |
| `CivilDate.FirstDays2024` | script.js:283 | February, March and April 2024 begin on days 19754, 19783 and 19814 |
| `DateFormat.IntToString` | script.js:367-369 | `String(i)` of a non-negative i is digits without a leading zero (unless i is 0); of a negative i, a minus sign before such digits; `ParseIntToString` states that it reads back as i |
| `DateFormat.NatToString` | script.js:368-369 | `String(n)` is a non-empty run of digits, one digit exactly when n < 10, and without a leading zero when n >= 1 |
| `DateFormat.PadStart2` | script.js:368-369 | `padStart(2, '0')` returns text of two or more characters unchanged; shorter text becomes two characters long, ending in the text and preceded by '0's |
| `DateFormat.ParseNatToString` | script.js:368-369 | the digits of `String(n)` read back as n |
| `DateFormat.ParseIntToString` | script.js:367 | `String(i)` of a year, signed or not, reads back as i |
| `DateFormat.ParsePadded` | script.js:368-369 | a padded month or day field is two digits and reads back as its value |
| `DateFormat.ParseDateFields` | script.js:370 | `Y-MM-DD` text splits back into its three fields |
| `DateFormat.FormatCivil` | script.js:370 | no contract of its own: `ParseFormatCivil` states that the text of a valid date parses back to it |
| `DateFormat.FormatDate` | script.js:366-371 | no contract of its own: `ParseFormatDate` and `FormatDateInjective` state that the text determines the day |
| `DateFormat.ParseFormatCivil` | script.js:366-371 | parsing the text of a valid date gives that date back |
| `DateFormat.ParseFormatDate` | script.js:366-371 | parsing `formatDate` of a day gives that day's date |
| `DateFormat.FormatDateInjective` | script.js:366-371 | two days with the same date text are the same day |
| `DateFormat.FormatDayNumber` | script.js:366-371 | `formatDate` of a valid date's day is the text of its fields |
| `DateFormat.FormatMarch15of2024` | script.js:366-371 | March 15 2024 is written `2024-03-15`, the text `Grid.March15EventOnce` asks of the event's date |
| `DateFormat.FormatMarch1of2024` | script.js:366-371 | March 1 2024 is written `2024-03-01` |
| `Grid.EventLookup` | script.js:361-364 | no contract of its own: the lookup `createDayElement` calls, `getEventsForDate` over the collection; `Grid.EventsForDate` states what it lists |
| `Grid.EventsForDate` | script.js:361-364 | an event is listed for a day exactly when it is in the collection and its date text is the day's `formatDate` |
| `Grid.DayCell` | script.js:317-338 | no contract of its own: `Grid.CellOfGrid` and `Grid.GridLayout` state each cell's date, flags and events |
| `Grid.StartDay` | script.js:285 | no contract of its own: `Grid.FirstOfMonth` states that it is the weekday of the 1st |
| `Grid.LastDate` | script.js:284 | no contract of its own: `Grid.MonthLength` and `Grid.LastDateAny` state that it is the month's length |
| `Grid.PrevMonthDate` | script.js:290 | no contract of its own: `Grid.PrevMonthLength` states that it is the length of the month two back |
| `Grid.CellDate` | script.js:293-310 | no contract of its own: `Grid.LeadingDate`, `Grid.CurrentDate` and `Grid.TrailingDate` state each block's dates |
| `Grid.GridWith` | script.js:279-315 | the grid holds 42 cells for any leading anchor |
| `Grid.MonthGrid` | script.js:279-315 | the grid for a year and month holds 42 cells |
| `Grid.RenderMonth` | script.js:279-315 | the three loops build exactly the grid `MonthGrid` describes |
| `Grid.AppendLeading` | script.js:290-297 | the first loop emits `startDay` cells, each the cell of that position |
| `Grid.AppendCurrent` | script.js:300-303 | the second loop appends one cell per day of the month, each at its position |
| `Grid.AppendTrailing` | script.js:306-314 | the third loop fills the grid to exactly 42 cells |
| `Grid.CellOfGrid` | script.js:321-338 | unfolds `GridWith`'s comprehension at cell k: the cell shows its day, is other-month outside the run of the shown month, is today exactly on today, and lists that day's events |
| `Grid.LeadingCell` | script.js:291-296 | step `i` of the first loop makes cell `startDay - 1 - i`, the day `prevMonth.getDate() - i` of month `month - 1` |
| `Grid.CurrentCell` | script.js:300-302 | day `d` of the shown month is cell `startDay + d - 1`, not other-month |
| `Grid.TrailingCell` | script.js:308-313 | day `d` of the next month is cell `startDay + lastDay + d - 1`, other-month |
| `Grid.LastDateAny` | script.js:284 | `new Date(year, m + 1, 0).getDate()` is the length of month m, for any month number |
| `Grid.FirstOfMonth` | script.js:283-285 | `firstDay` is the 1st of the month (with the two-digit-year rule) and `startDay` its weekday |
| `Grid.MonthLength` | script.js:284 | `lastDay.getDate()` is the number of days of the shown month |
| `Grid.PrevMonthLength` | script.js:290 | `prevMonth.getDate()` is the length of the month two before the shown one |
| `Grid.FebruaryLength` | script.js:284 | February has 29 current cells in a leap year and 28 otherwise |
| `Grid.February2024` | script.js:284 | February 2024 has 29 current cells |
| `Grid.February2023` | script.js:284 | February 2023 has 28 current cells |
| `Grid.LeadingDate` | script.js:293 | leading cell k is `anchor - startDay + k` days after the 1st of month `month - 1` |
| `Grid.RunDate` | script.js:300-314 | from the 1st on, cell k lies `k - startDay` days after the 1st |
| `Grid.Column` | script.js:285 | counting on from the 1st, each day falls in the column of its weekday |
| `Grid.CurrentDate` | script.js:301 | a current cell shows day `k - startDay + 1` of the shown month |
| `Grid.TrailingDate` | script.js:310 | a trailing cell shows a day of the next month, January of the next year after December |
| `Grid.GridLayout` | script.js:283-314 | 0 to 6 leading cells, 28 to 31 current cells, 5 to 14 trailing cells, never a negative count; every cell's flags and events |
| `Grid.CurrentMonthCells` | script.js:300-303 | the current cells are days 1 to the month's length, in order, and every day of the month has its cell |
| `Grid.TrailingCells` | script.js:306-314 | the trailing cells are days 1, 2, … of the next month, rolling December into January |
| `Grid.DaysRunOn` | script.js:300-314 | from the 1st on, the cells are consecutive days, each in the column of its weekday |
| `Grid.RunCell` | script.js:300-314 | from the 1st on, cell k is `k - startDay` days after the 1st and in column `k % 7` |
| `Grid.LeadingCells` | script.js:290-297 | the leading cells are consecutive days counted from the 1st of month `month - 1`, ending on day p, where p is the length of the month two back |
| `Grid.SeamDate` | script.js:293-301 | the 1st follows the last leading day by 1 plus the gap between the previous month's length and the anchor |
| `Grid.PrevMonthStart` | script.js:290-301 | the 1st of the shown month is the previous month's length after the 1st of the previous month |
| `Grid.LeadingSeam` | script.js:290-301 | with leading cells, the 1st directly follows the last of them exactly when the previous month is as long as the month before it |
| `Grid.CorrectedMonthGrid` | script.js:290-297 | the corrected grid, counting back from the previous month's last day, holds 42 cells |
| `Grid.CorrectedGridConsecutive` | script.js:279-315 | in the corrected grid every cell is the day after the previous one, and each weekday keeps its column |
| `Grid.CorrectedCellDate` | script.js:290-314 | cell k of the corrected grid is `k - startDay` days after the 1st and in column `k % 7` |
| `Grid.SameFromFirst` | script.js:300-314 | the cells from the 1st on do not depend on the leading anchor |
| `Grid.AsWrittenIsCorrectIff` | script.js:290-297 | the grid as written equals the corrected one exactly when there are no leading cells or the two month lengths agree |
| `Grid.StartDayFrom100` | script.js:283-285 | from the year 100 on, `startDay` is the weekday of the 1st of that very year's month |
| `Grid.WeekDaysOf2024` | script.js:285 | March 1 2024 is a Friday and April 1 2024 a Monday |
| `Grid.StartDays2024` | script.js:285 | March 2024 has 5 leading cells and April 2024 has 1 |
| `Grid.AprilAnchor2024` | script.js:290 | for April 2024, `prevMonth.getDate()` is 29, February's length |
| `Grid.April2024First` | script.js:293 | the single leading cell of April 2024 is March 29 |
| `Grid.April2024Second` | script.js:301 | the next cell of April 2024 is April 1 |
| `Grid.April2024Step` | script.js:290-301 | April 1 is three days after the leading cell |
| `Grid.April2024Gap` | script.js:290-301 | April 2024 as written shows March 29 then April 1, so March 30 and 31 are never shown |
| `Grid.MarchAnchor2024` | script.js:290 | for March 2024, `prevMonth.getDate()` is 31, January's length |
| `Grid.March2024Leading` | script.js:293 | the five leading cells of March 2024 are February 27 onward, consecutive |
| `Grid.March2024Run` | script.js:300-314 | from cell 5 on, March 2024 counts on from March 1 |
| `Grid.MarchFirst2024` | script.js:301 | March 1 2024 is 29 days after February 1 |
| `Grid.FebruaryEnd2024` | script.js:293 | 26, 27 and 28 days after February 1 2024 are February 27, 28 and 29 |
| `Grid.March2024Repeats` | script.js:290-303 | March 2024 as written shows February 27, 28 and 29 and then March 1 and 2 twice: cells 3 and 5, and 4 and 6, have the same day; cells 3 and 4 are other-month and cells 5 and 6 are not |
| `Grid.EventInCellIff` | script.js:338 | a cell lists an event exactly when the event is in the collection with the cell's date text |
| `Grid.CellOfDay` | script.js:300-303 | day d of the shown month is cell `startDay + d - 1`, and no other cell from the 1st on shows that day |
| `Grid.EventInOneCell` | script.js:338 | an event on day d of the shown month is listed in that day's cell and in no other cell from the 1st on |
| `Grid.March1EventTwice` | script.js:290-303 | as written, an event on March 1 2024 is listed in two cells of the March 2024 grid |
| `Grid.March15EventOnce` | script.js:338 | an event on 2024-03-15 is listed in the March 15 cell of the March 2024 grid and in no other |
| `Calendar.LoadEventsFromLocal` | script.js:205-210 | a missing or empty store loads as the empty collection; otherwise the stored collection as is |
| `Calendar.LoadSaved` | script.js:205-215 | holds by the store's snapshot convention (the store keeps the collection as a value): reading it back after writing gives the same collection |
| `Calendar.IsEditing` | script.js:222 | no contract of its own: the truthiness of `editingEventId`, a present and non-empty id |
| `Calendar.SavedEvents` | script.js:222-229 | no contract of its own: `Calendar.SaveWhileEditing` and `Calendar.SaveNew` state both branches |
| `Calendar.SaveWhileEditing` | script.js:222-226 | saving while editing keeps the length, puts the event at the first index with the edited id, and leaves every other element; with no such id nothing changes |
| `Calendar.SaveNew` | script.js:227-229 | saving a new event appends it after the unchanged collection |
| `Calendar.SetMonth` | script.js:251-258 | no contract of its own: `Calendar.SetMonthLands` states where it lands |
| `Calendar.SetMonthFits` | script.js:258 | when month m has the current day of the month, `setMonth(m)` lands on that day of month m |
| `Calendar.SetMonthOverflows` | script.js:258 | otherwise `setMonth(m)` lands in the month after, by the excess days |
| `Calendar.SetMonthLands` | script.js:250-262 | both cases of `setMonth` together |
| `Calendar.SetMonthLandsIff` | script.js:250-262 | navigation reaches the intended month exactly when the current day of the month exists in it |
| `Calendar.NextMonthFromJanuary31` | script.js:257-262 | from January 31 2024, `nextMonth` lands on March 2 |
| `Calendar.PreviousMonthFromMarch31` | script.js:250-255 | from March 31 2024, `previousMonth` lands on March 2, so the month does not change |
| `Calendar.ShiftMonth` | script.js:250-262 | no contract of its own: the corrected navigation, whose landing `Calendar.ShiftMonthLands` states |
| `Calendar.ShiftMonthLands` | script.js:250-262 | the corrected navigation always lands in the month `delta` months on, on the same day or that month's last day |
| `Calendar.ShiftMonthAgrees` | script.js:250-262 | where the day exists in the target month, the corrected navigation and `setMonth` agree |
| `Calendar.ShiftMonthBack` | script.js:250-262 | with the corrected navigation, one month on and one back returns to the starting month |
| `Calendar.FamilyCalendar.constructor` | script.js:2-11 | the current date is now, the collection is what storage holds, and no event is being edited |
| `Calendar.FamilyCalendar.ShowEventForm` | script.js:384-385 | opening the form for an event edits that event's id; opening it empty edits none |
| `Calendar.FamilyCalendar.HideEventForm` | script.js:413-416 | closing the form ends editing |
| `Calendar.FamilyCalendar.SaveEvent` | script.js:217-234 | the collection becomes the saved collection for the editing state, nothing else changes, and the written snapshot is the new collection |
| `Calendar.FamilyCalendar.DeleteEventById` | script.js:236-244 | the collection loses exactly the events with that id, and the written snapshot is the new collection |
| `Calendar.FamilyCalendar.DriftTick` | script.js:80-86 | after a tick the collection is the stored one, and the tick reports a change exactly when the two differed |
| `Calendar.FamilyCalendar.StorageChanged` | script.js:72-77 | a change to the calendar's key reloads the collection; a change to another key leaves it alone |
| `Calendar.FamilyCalendar.PreviousMonth` | script.js:250-255 | the current date becomes `setMonth(getMonth() - 1)` of the old one, and nothing else changes |
| `Calendar.FamilyCalendar.NextMonth` | script.js:257-262 | the current date becomes `setMonth(getMonth() + 1)` of the old one, and nothing else changes |
| `Calendar.FamilyCalendar.RenderCalendar` | script.js:279-315 | the calendar draws the grid of the current date's year and month over its collection |
| `Calendar.SavedEventShown` | script.js:217-234 | a newly saved event on day d of the shown month appears in that day's cell and in no other cell from the 1st on |
| `Calendar.DeletedEventGone` | script.js:236-244 | after deleting an id, no cell of any month lists an event with that id |

## Left out

- DOM construction, CSS and event binding are not modelled because they are presentation only. This covers `initializeElements`, `bindEvents`, the touch handlers, the form and detail dialogs beyond their effect on `editingEventId`, `selectDate`, `updateCurrentMonthDisplay`, `updateConnectionStatus` and `showToast`. A cell records only what `createDayElement` decides: its day, its two flags and its events.
- The remote database code is left out: `initializeFirebase`, `setupFirebaseListeners`, `syncWithFirebase`, and the `db` branches of `saveEvent` and `deleteEventById`. The handle is always null (script.js:41), so that code never runs. The `isOnline` and `selectedDate` fields are used only by that code and by the DOM.
- `localStorage` and JSON are not modelled. The store is a snapshot value: `None` for a missing or empty item, `Some(s)` for one that parses to `s`. A corrupt item makes `JSON.parse` throw in the source, and the model has no such input.
- `Calendar.FamilyCalendar.DriftTick` compares collections by value where the source compares their `JSON.stringify` text. The two agree for records with the same fields in the same order.
- Timers and listeners are not modelled, only the bodies they run. This covers `setInterval`, `setTimeout`, the `online`, `offline` and `beforeunload` listeners, and the registration of the `storage` listener.
- `generateId` (clock and randomness), `navigator.vibrate` and `confirm` are left out.
- Time of day and time zones are not modelled. A date is a whole day, and cells compare to `today` by day number, as `toDateString()` compares them. `today` is one parameter, where the source calls `new Date()` once per cell.
- The JavaScript Date range (±100,000,000 days) and invalid dates are not modelled; years and days are unbounded integers.
- `Calendar.FamilyCalendar.constructor`, `Calendar.FamilyCalendar.SaveEvent`, `Calendar.FamilyCalendar.DeleteEventById`, `Calendar.FamilyCalendar.DriftTick`, `Calendar.FamilyCalendar.StorageChanged`, `Calendar.FamilyCalendar.PreviousMonth` and `Calendar.FamilyCalendar.NextMonth` do not re-render (script.js:16, 233, 243, 84, 75, 252, 259); `Calendar.FamilyCalendar.RenderCalendar` renders the state they leave. The grid takes the events as a lookup from day to events; the class passes `getEventsForDate` over its collection.
- The grid lemmas require `0 <= month < 12`, the range of `getMonth()`. `Grid.RenderMonth` itself accepts any month number.
- `Grid.EventsForDate` states which events a cell lists, not their order. The order is the collection's, because `Events.FilterAppend` shows that filtering works piece by piece.

## Findings

| source | as written | input that shows it | evidently intended | confidence | as-written member | corrected member |
|---|---|---|---|---|---|---|
| script.js:290-293 | the leading cells count back from `new Date(year, month - 1, 0).getDate()`, the length of the month two before, inside the month before | April 2024: one leading cell, March 29, then April 1. March 2024: February 27, 28, 29, March 1, March 2, then March 1 again | count back from the last day of the month before, `new Date(year, month, 0)`, so the grid is 42 consecutive days | not executed | `Grid.March2024Repeats` | `Grid.CorrectedGridConsecutive` |
| script.js:258 | `setMonth(getMonth() + 1)` keeps the day of the month, which overflows into the following month when the next month is shorter | current date January 31 2024: `nextMonth` shows March (March 2), skipping February. March 31 2024: `previousMonth` stays in March | show the next (previous) month, keeping the day where it exists and taking the month's last day otherwise | not executed | `Calendar.NextMonthFromJanuary31` | `Calendar.ShiftMonthLands` |

The class reproduces the code as written: `RenderCalendar` draws `MonthGrid`, and `NextMonth` and `PreviousMonth` use `setMonth`. The corrected definitions are `CorrectedMonthGrid` and `ShiftMonth`. Beside them, `Grid.AsWrittenIsCorrectIff` and `Calendar.ShiftMonthAgrees` state exactly when each defect shows.

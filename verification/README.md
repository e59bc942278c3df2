# Mini-Calendar in Dafny

A model of the calendar widget in `index.js` (class `AdvancedCalendar`). The
widget shows one month as a grid of day cells under a "Month Year" heading. It
navigates by month, by year and back to today. Clicking a day selects it and
opens an event dialog, and saving the dialog stores an event under that day.

The model keeps the widget's state as an immutable `Widget` value:
- the cursor `currentDate`;
- the optional `selectedDate`;
- the `events` map;
- whether the event modal is shown.

Every handler becomes a pure function from state to state, and what
`renderCalendar` draws becomes a sequence of `Cell` values.

Under that sits a model of the part of the JavaScript `Date` object the widget
relies on. It follows section 21.4.1 of ECMA-262 (DayFromYear, MakeDay, WeekDay)
and has these pieces:
- the constructor `new Date(y, m, d)`, including its reading of the years 0..99
  as 1900..1999;
- `setMonth` and `setFullYear`, both with day overflow;
- `getDay`;
- the date part of `toISOString`.

Modules, one per file:

| file | module | what it holds |
|---|---|---|
| `wrappers.dfy` | `Wrappers` | `Option`, `Result` |
| `gregorian.dfy` | `Gregorian` | leap years, month lengths, the ECMA-262 day count, `Normalize` (folds an out-of-range month or day into a real date), weekdays |
| `dateobject.dfy` | `DateObject` | `NewDate`, `SetMonth`, `SetFullYear`, `GetDay` |
| `decimal.dfy` | `Decimal` | printing and parsing of numerals, zero padding, `split` |
| `datekeys.dfy` | `DateKeys` | the two event-key formats: the grid's unpadded key and the saved ISO key |
| `calendar.dfy` | `Calendar` | widget state and the handlers |
| `view.dfy` | `View` | heading, grid, the rendering loops and everything about what a cell shows |

## Model

| member | source | states |
|---|---|---|
| Calendar.Init | index.js:2-5 | The widget starts on the current date with nothing selected and no events. The model also starts with the modal closed (see Left out). |
| Calendar.SelectDate | index.js:89-93 | Selecting sets a selection and opens the modal. The cursor and the events are unchanged. |
| Calendar.SelectDateSelects | index.js:89-93 | Selecting a real date (outside the years 0..99) makes exactly that date, and no other, the selected one. |
| Calendar.ChangeMonth | index.js:95-98 | Month navigation moves only the cursor. Selection, events and modal are unchanged. |
| Calendar.ChangeMonthMoves | index.js:95-98 | The cursor lands on the month that `year*12 + month + delta` counts, floor-divided into a year and a month in 0..11. It keeps its day when that month has it. Otherwise the 1 to 3 excess days spill into the following month. |
| Calendar.ChangeMonthUndo | index.js:95-98 | Moving by `delta` months and then by `-delta` months returns to the same state whenever the first move kept the day. |
| Calendar.JanuaryThirtyFirstPlusOneMonth | index.js:96 | January 31, 2025 plus one month is March 3, 2025. |
| Calendar.ChangeYear | index.js:100-103 | Year navigation moves only the cursor. |
| Calendar.ChangeYearMoves | index.js:100-103 | The cursor keeps its month and day in the new year, except that February 29 moved into a common year becomes March 1. |
| Calendar.ChangeYearUndo | index.js:100-103 | Moving by `delta` years and then by `-delta` years returns to the same state unless the first move landed February 29 in a common year. |
| Calendar.LeapDayPlusOneYear | index.js:101 | February 29, 2024 plus one year is March 1, 2025. |
| Calendar.GoToToday | index.js:105-108 | The cursor becomes the current date. Nothing else changes. |
| Calendar.CloseEventModal | index.js:114-116 | The modal closes. Nothing else changes. |
| Calendar.WindowClick | index.js:139-143 | A window click closes the modal exactly when it lands on the backdrop. Nothing else changes. |
| Calendar.Store | index.js:124-126 | Storing an event sets exactly the given key, keeps every other event, keeps cursor and selection, and closes the modal. |
| Calendar.SaveEvent | index.js:118-128 | A save fails exactly when nothing is selected. An empty title changes nothing. Otherwise the event is stored under the ISO key of the selection, with every other event kept, and the modal closes. |
| Calendar.SaveOverwrites | index.js:124 | Saving twice on one selection leaves only the second event. |
| Calendar.SaveFromOpenModal | index.js:118-128 | While the modal is open a save cannot fail, because a day has been selected. |
| Calendar.TransitionsKeepWf | index.js:89-143 | No transition shows the modal without a selected day. |
| Calendar.SaveEventFixed | index.js:118-128 | The corrected save. It is SaveEvent with the event stored under the key the grid reads: both go through Store, and only the key differs. |
| DateObject.DayZeroIsLastDay | index.js:48 | `new Date(y, m + 1, 0)` is the last day of month m, so its day of month is the length of m. |
| DateObject.FirstOfMonth | index.js:47 | `new Date(y, m, 1)` is the 1st of month m, in the year the constructor reads. |
| DateObject.NewDateOfValid | index.js:90 | The constructor returns a real date outside the years 0..99 unchanged. |
| DateObject.SetMonthKeepsDay | index.js:96 | `setMonth(k)` lands on month `k mod 12` of year `year + k div 12`, with the same day when that month has it. |
| DateObject.SetMonthSpills | index.js:96 | Otherwise the days past the end of that month carry into the following month. |
| DateObject.SetFullYearKeepsDay | index.js:101 | `setFullYear(y)` keeps month and day, except that February 29 becomes March 1 in a common year. |
| Gregorian.DaysInMonth | index.js:48 | Every month has 28 to 31 days, and 29 exactly for February of a leap year. |
| Gregorian.NormalizeUnique | index.js:90 | Normalize gives the one real date with the day count that ECMA-262 MakeDay gives the out-of-range triple. |
| Gregorian.WeekdayAdvances | index.js:47 | Each day moves the weekday on by one, across month and year ends. |
| DateKeys.RenderKeyRoundTrip | index.js:57 | The grid's key `${year}-${month+1}-${day}` reads back as its fields. |
| DateKeys.RenderKeyInjective | index.js:57 | Distinct days have distinct grid keys. |
| DateKeys.IsoKeyRoundTrip | index.js:119 | The saved key `toISOString().split('T')[0]` reads back as the selected date. |
| DateKeys.IsoKeyInjective | index.js:119 | Distinct days have distinct saved keys, so a save never overwrites another day's event. |
| DateKeys.KeysAgree | index.js:119 | The saved key and the grid key of a day are the same string exactly when KeysMatch holds. KeysMatch means a four-digit year (or one at or below -100000), a month from October on, and a day from the 10th on. |
| View.RenderCalendar | index.js:50-72 | The two loops of renderCalendar build exactly the grid: first the placeholders, then one cell per day. |
| View.MonthLayout | index.js:47-48 | `firstDayOfMonth` is the weekday of the 1st. `daysInMonth` is the month's length, in the year the constructor reads. |
| View.GridAt | index.js:52-72 | Cell i is a placeholder before `firstDayOfMonth` and day `i - first + 1` after it. There are `first + daysInMonth` cells and no trailing padding. |
| View.GridShape | index.js:47-72 | The number of placeholders is the weekday of the 1st. The days that follow run 1, 2, ... up to the month's length, in order. |
| View.DayColumns | index.js:47-56 | Day d sits in grid column (weekday of the 1st + d - 1) mod 7, which is `getDay()` of day d: every day falls in the column of its own weekday. |
| View.WeekdayLabels | index.js:9 | The seven labels follow `getDay`'s numbering from Sunday: January 1, 1970 is labelled "Thu" and March 1, 2024 "Fri". |
| View.GridSelection | index.js:82-87 | At most one cell is marked selected. There is one exactly when the selection lies in the displayed month. |
| View.GridToday | index.js:75-80 | At most one cell is marked today. There is one exactly when the current date lies in the displayed month. |
| View.InitialGrid | index.js:2-33 | After start-up the current month is shown with its today cell, and no cell is selected or has an event. |
| View.HeadingDeterminesMonth | index.js:45 | The heading `${monthNames[month]} ${year}` identifies the displayed month and year. |
| View.SavedEventShownOnlyIfKeysMatch | index.js:118-128 | As written, saving on a selected day of the displayed month lights that day's has-event flag only if the flag was already lit or KeysMatch holds. |
| View.MarchFifthEventHidden | index.js:119 | An event saved on March 5, 2024 does not show on March 5. |
| View.SavedEventShown | index.js:57-60 | With the corrected save, the saved day's cell has its has-event flag lit. |
| View.SavedEventTouchesOneCell | index.js:57-60 | With the corrected save, only the saved day's cell changes. |

## Left out

- The DOM is not modelled: `innerHTML`, `createElement`, CSS classes and `style.display`. A cell is a `Cell` value and the modal is a flag.
- Event listeners are not modelled. Each button becomes a call of its handler with the listener's argument, for example `ChangeMonth(w, -1)`.
- Re-rendering after each handler is not modelled: the grid is a function of the state, so it is always current.
- The real clock is not modelled. `new Date()` in the constructor, `isToday` and `goToToday` becomes the parameter `today`, one value per render.
- Time of day, time zones and daylight saving are not modelled. The host's UTC offset is fixed at zero, so `toISOString` gives the local date. With a positive offset local midnight falls on the previous UTC day, which would move saved events a day earlier still.
- The Date time-value limit (±8.64e15 ms, about ±275000 years) is not modelled. Beyond it `Date` becomes invalid and `toISOString` throws.
- The form fields are not modelled. `eventTitle` and `eventDescription` are read by `saveEvent` and become its arguments. The truthiness test `if (title)` is `title != ""`, since a field's value is always a string.
- `this.events[dateString]` is truthy exactly when the key is present, because the stored values are objects. The model tests membership.
- Calendar.Init: the constructor never sets the modal's display. The model assumes the page's stylesheet hides the modal until `selectDate` shows it, and starts from that state. The stylesheet is not part of this model.
- Calendar.SelectDate: its own contract gives only the frame and the opened modal. SelectDateSelects says which day becomes selected.
- Calendar.ChangeMonth: its own contract gives only the frame. ChangeMonthMoves says where the cursor lands.
- Calendar.ChangeYear: its own contract gives only the frame. ChangeYearMoves says where the cursor lands.
- View.SavedEventShownOnlyIfKeysMatch: covers cursor years outside 0..99 only. In those years the grid is laid out for 1900 + year, which the lemma does not track.
- View.SavedEventShown: covers cursor years outside 0..99 only, for the same reason.
- View.GridSelection: its condition uses the month length of the year the constructor reads. This differs from the cursor's own year only in 0..99.
- View.GridToday: the same as GridSelection.

The code differs from a plain reading of the widget's design in these ways. The model follows the code.
- The cursor is a full `Date`, not a (year, month) pair. Month and year navigation carry its day of month, which can overflow. January 31, 2025 plus one month is March 3 (March 2 in a leap year), and February 29 plus one year is March 1 (ChangeMonthMoves, ChangeYearMoves).
- `selectDate` stores `new Date(year, month, day)`. That value is folded like any Date, and years 0..99 are read as 1900..1999.
- Events are saved under the zero-padded ISO date, not under the grid's unpadded key (see Findings).
- `saveEvent` with no selection throws a `TypeError`. The model returns `Failure(NoSelection)`.

## Findings

| source | as written | input that shows it | evidently intended | confidence | as-written member | corrected member |
|---|---|---|---|---|---|---|
| index.js:119 | `saveEvent` stores under `toISOString().split('T')[0]` (zero-padded `YYYY-MM-DD`), while `renderCalendar` (index.js:57) looks up `${year}-${month + 1}-${day}` without padding. The two agree only when the month is October to December and the day is the 10th or later (KeysAgree). | Select March 5, 2024 and save "Meeting". The event is stored as `2024-03-05` but the grid asks for `2024-3-5`, so the day never shows has-event. | The saved event shows on the day it was saved for: save under the grid's key. | high (proved about the model; not executed) | View.SavedEventShownOnlyIfKeysMatch | Calendar.SaveEventFixed |

/**
 What `renderCalendar` and `renderWeekdays` draw (index.js:35-73), as values
 instead of DOM nodes: the heading text, the weekday labels, and the month grid.

 The grid is `firstDayOfMonth` empty placeholders followed by one cell per day
 of the cursor's month, each flagged today / selected / has-event.  There is no
 trailing padding.  Both layout numbers come from `Date` objects built by the
 constructor, so a cursor in the years 0..99 is laid out as the month of 1900
 plus that year; the lemmas say so through ConstructorYear.
 */
module View {
  import opened Wrappers
  import opened Gregorian
  import opened DateObject
  import opened Decimal
  import opened DateKeys
  import opened Calendar

  /** One element of the days container: `<div class="empty">` or a `calendar-day`. */
  datatype Cell = Empty | Day(day: int, isToday: bool, isSelected: bool, hasEvent: bool)

  const MonthNames: seq<string> := ["January", "February", "March", "April", "May", "June",
    "July", "August", "September", "October", "November", "December"]

  const WeekdayNames: seq<string> := ["Sun", "Mon", "Tue", "Wed", "Thu", "Fri", "Sat"]

  /** The text of the heading: month name, a space, and the year. */
  function Heading(w: Widget): string {
    MonthNames[w.cursor.month] + " " + IntToString(w.cursor.year)
  }

  /** `firstDayOfMonth`: the weekday of `new Date(year, month, 1)`. */
  function FirstWeekday(y: int, m: int): nat {
    GetDay(NewDate(y, m, 1))
  }

  /** `daysInMonth`: the day of month of `new Date(year, month + 1, 0)`. */
  function MonthLength(y: int, m: int): nat {
    NewDate(y, m + 1, 0).day
  }

  /** The cell of day `d` of the displayed month (year `y`, month `m`). */
  function DayCell(w: Widget, today: CalendarDate, y: int, m: int, d: int): Cell {
    Day(d, IsToday(today, y, m, d), IsSelected(w, y, m, d), RenderKey(y, m, d) in w.events)
  }

  /** `first` placeholders, then the cells of days 1 to `length` of month `m` of year `y`. */
  function Cells(w: Widget, today: CalendarDate, y: int, m: int, first: nat, length: nat): seq<Cell> {
    seq(first, _ => Empty) + seq(length, i => DayCell(w, today, y, m, i + 1))
  }

  /** The grid of the cursor's month. */
  function Grid(w: Widget, today: CalendarDate): seq<Cell> {
    var y, m := w.cursor.year, w.cursor.month;
    Cells(w, today, y, m, FirstWeekday(y, m), MonthLength(y, m))
  }

  /** `renderCalendar`'s two loops: the placeholders, then the days from 1 up to daysInMonth. */
  method RenderCalendar(w: Widget, today: CalendarDate) returns (cells: seq<Cell>)
    ensures cells == Grid(w, today)
  {
    var y, m := w.cursor.year, w.cursor.month;
    var first := FirstWeekday(y, m);
    var length := MonthLength(y, m);
    cells := [];
    var i := 0;
    while i < first
      invariant 0 <= i <= first
      invariant cells == Cells(w, today, y, m, i, 0)
    {
      CellsAddBlank(w, today, y, m, i);
      cells := cells + [Empty];
      i := i + 1;
    }
    var day := 1;
    while day <= length
      invariant 1 <= day <= length + 1
      invariant cells == Cells(w, today, y, m, first, day - 1)
    {
      CellsAddDay(w, today, y, m, first, day - 1);
      cells := cells + [DayCell(w, today, y, m, day)];
      day := day + 1;
    }
  }

  lemma CellsAddBlank(w: Widget, today: CalendarDate, y: int, m: int, first: nat)
    ensures Cells(w, today, y, m, first + 1, 0) == Cells(w, today, y, m, first, 0) + [Empty]
  {
  }

  lemma CellsAddDay(w: Widget, today: CalendarDate, y: int, m: int, first: nat, length: nat)
    ensures Cells(w, today, y, m, first, length + 1)
      == Cells(w, today, y, m, first, length) + [DayCell(w, today, y, m, length + 1)]
  {
  }

  // ---------------------------------------------------------------------------
  // Layout

  /** The two layout numbers are the weekday of the 1st and the length of the month, in the
      year the constructor reads. */
  lemma MonthLayout(y: int, m: int)
    requires 0 <= m < 12
    ensures FirstWeekday(y, m) == Weekday(Date(ConstructorYear(y), m, 1))
    ensures MonthLength(y, m) == DaysInMonth(ConstructorYear(y), m)
  {
    FirstOfMonth(y, m);
    MonthLengthIsDaysInMonth(y, m);
  }

  lemma MonthLengthIsDaysInMonth(y: int, m: int)
    requires 0 <= m < 12
    ensures MonthLength(y, m) == DaysInMonth(ConstructorYear(y), m)
  {
    DayZeroIsLastDay(y, m);
  }

  /** Cell i of the grid, by position. */
  lemma GridAt(w: Widget, today: CalendarDate)
    ensures var y, m := w.cursor.year, w.cursor.month;
      var cells, first := Grid(w, today), FirstWeekday(y, m);
      && |cells| == first + MonthLength(y, m)
      && forall i :: 0 <= i < |cells| ==>
           cells[i] == if i < first then Empty else DayCell(w, today, y, m, i - first + 1)
  {
    var y, m := w.cursor.year, w.cursor.month;
    CellsAt(w, today, y, m, FirstWeekday(y, m), MonthLength(y, m));
  }

  lemma CellsAt(w: Widget, today: CalendarDate, y: int, m: int, first: nat, length: nat)
    ensures var cells := Cells(w, today, y, m, first, length);
      && |cells| == first + length
      && forall i :: 0 <= i < |cells| ==>
           cells[i] == if i < first then Empty else DayCell(w, today, y, m, i - first + 1)
  {
  }

  /** The grid is the weekday of the 1st in placeholders, then the days 1, 2, ... up to the
      month's length, in order. */
  lemma GridShape(w: Widget, today: CalendarDate)
    ensures var cy, m := ConstructorYear(w.cursor.year), w.cursor.month;
      var cells, first := Grid(w, today), Weekday(Date(cy, m, 1));
      && |cells| == first + DaysInMonth(cy, m)
      && (forall i :: 0 <= i < first ==> cells[i] == Empty)
      && (forall i :: first <= i < |cells| ==> cells[i].Day? && cells[i].day == i - first + 1)
  {
    GridAt(w, today);
    MonthLayout(w.cursor.year, w.cursor.month);
  }

  lemma WeekdayStepMod(a: int, d: int, p: int, q: int)
    requires p == (a + d - 1) % 7 && q == (p + 1) % 7
    ensures q == (a + d) % 7
  {
    var k := (a + d - 1) / 7;
    assert a + d - 1 == 7 * k + p;
  }

  /** Day d of a month falls d - 1 weekdays after the 1st. */
  lemma {:induction false} WeekdayOfDay(y: int, m: int, d: int)
    requires d >= 1
    ensures Weekday(Normalize(y, m, d)) == (Weekday(Normalize(y, m, 1)) + d - 1) % 7
    decreases d
  {
    if d > 1 {
      WeekdayOfDay(y, m, d - 1);
      WeekdayAdvances(y, m, d - 1);
      WeekdayStepMod(Weekday(Normalize(y, m, 1)), d - 1,
        Weekday(Normalize(y, m, d - 1)), Weekday(Normalize(y, m, d)));
    }
  }

  /** Day d sits at grid position first + d - 1 (GridAt), so in column (first + d - 1) % 7:
      the column of its own weekday. */
  lemma DayColumns(y: int, m: int)
    ensures forall d :: 1 <= d <= MonthLength(y, m) ==>
      (FirstWeekday(y, m) + d - 1) % 7 == GetDay(NewDate(y, m, d))
  {
    forall d | 1 <= d <= MonthLength(y, m)
      ensures (FirstWeekday(y, m) + d - 1) % 7 == GetDay(NewDate(y, m, d))
    {
      WeekdayOfDay(ConstructorYear(y), m, d);
    }
  }

  /** The labels follow `getDay`'s numbering from Sunday = 0: January 1, 1970 is labelled
      "Thu" and March 1, 2024 "Fri". */
  lemma WeekdayLabels()
    ensures |WeekdayNames| == 7
    ensures WeekdayNames[GetDay(Date(1970, 0, 1))] == "Thu"
    ensures WeekdayNames[GetDay(Date(2024, 2, 1))] == "Fri"
  {
    EpochWeekday(Date(1970, 0, 1));
    MarchFirst2024Weekday();
  }

  // The date is a parameter pinned by `requires` rather than a literal: with the literal date the
  // solver unfolds the day count eagerly and runs out of resource.
  lemma EpochWeekday(e: Date)
    requires e.year == 1970 && e.month == 0 && e.day == 1
    ensures Weekday(e) == 4
  {
    var n := DayNumber(e);
    assert n == 0 by {
      assert DayFromYear(e.year) == 0;
    }
    WeekdayOfDayZero(n);
  }

  // A separate step for the same reason: `(0 + 4) % 7 == 4` next to the unfolded day count is
  // out of the solver's budget.
  lemma WeekdayOfDayZero(n: int)
    requires n == 0
    ensures (n + 4) % 7 == 4
  {
  }

  lemma MarchFirst2024Weekday()
    ensures Weekday(Date(2024, 2, 1)) == 5
  {
    assert DayFromYear(2024) == 19723;
    assert DaysBeforeMonth(2024, 1) == 31;
    assert DaysBeforeMonth(2024, 2) == 60;
    assert DayNumber(Date(2024, 2, 1)) == 19783;
  }

  // ---------------------------------------------------------------------------
  // Flags

  /** The grid has a `selected` cell only for a selection inside the displayed month, and
      then exactly one, the selection's day. */
  lemma GridSelection(w: Widget, today: CalendarDate)
    ensures var cells := Grid(w, today);
      forall i, j :: (0 <= i < |cells| && 0 <= j < |cells| && cells[i].Day? && cells[j].Day?
        && cells[i].isSelected && cells[j].isSelected) ==> i == j
    ensures var cells := Grid(w, today);
      var y, m := w.cursor.year, w.cursor.month;
      (exists i :: 0 <= i < |cells| && cells[i].Day? && cells[i].isSelected)
        <==> w.selected.Some? && w.selected.value.year == y && w.selected.value.month == m
             && w.selected.value.day <= DaysInMonth(ConstructorYear(y), m)
  {
    var cells := Grid(w, today);
    var y, m := w.cursor.year, w.cursor.month;
    GridAt(w, today);
    MonthLengthIsDaysInMonth(y, m);
    if w.selected.Some? && w.selected.value.year == y && w.selected.value.month == m
      && w.selected.value.day <= DaysInMonth(ConstructorYear(y), m)
    {
      var i := FirstWeekday(y, m) + w.selected.value.day - 1;
      assert cells[i].Day? && cells[i].isSelected;
    }
  }

  /** Likewise the grid has a `today` cell only when the current date is in the displayed
      month, and then exactly one. */
  lemma GridToday(w: Widget, today: CalendarDate)
    ensures var cells := Grid(w, today);
      forall i, j :: (0 <= i < |cells| && 0 <= j < |cells| && cells[i].Day? && cells[j].Day?
        && cells[i].isToday && cells[j].isToday) ==> i == j
    ensures var cells := Grid(w, today);
      var y, m := w.cursor.year, w.cursor.month;
      (exists i :: 0 <= i < |cells| && cells[i].Day? && cells[i].isToday)
        <==> today.year == y && today.month == m && today.day <= DaysInMonth(ConstructorYear(y), m)
  {
    var cells := Grid(w, today);
    var y, m := w.cursor.year, w.cursor.month;
    GridAt(w, today);
    MonthLengthIsDaysInMonth(y, m);
    if today.year == y && today.month == m && today.day <= DaysInMonth(ConstructorYear(y), m) {
      var i := FirstWeekday(y, m) + today.day - 1;
      assert cells[i].Day? && cells[i].isToday;
    }
  }

  /** Right after start-up the displayed month is the current one, its today cell is
      there, and no cell is selected or has an event. */
  lemma InitialGrid(today: CalendarDate)
    requires !(0 <= today.year <= 99)
    ensures var cells := Grid(Init(today), today);
      && (exists i :: 0 <= i < |cells| && cells[i].Day? && cells[i].isToday)
      && (forall i :: 0 <= i < |cells| && cells[i].Day? ==> !cells[i].isSelected && !cells[i].hasEvent)
  {
    var w := Init(today);
    var cells := Grid(w, today);
    GridAt(w, today);
    MonthLengthIsDaysInMonth(today.year, today.month);
    var i := FirstWeekday(today.year, today.month) + today.day - 1;
    assert cells[i].Day? && cells[i].isToday;
  }

  // ---------------------------------------------------------------------------
  // Heading

  lemma IntToStringHasNoSpace(y: int)
    ensures ' ' !in IntToString(y)
  {
    var s := NatToString(if y < 0 then -y else y);
    assert AllDigits(s);
    assert ' ' !in s;
  }

  /** The heading splits at its one space into the month name and the year. */
  lemma HeadingSplit(w: Widget)
    ensures Split(Heading(w), ' ') == [MonthNames[w.cursor.month], IntToString(w.cursor.year)]
  {
    var name, year := MonthNames[w.cursor.month], IntToString(w.cursor.year);
    assert ' ' !in name;
    IntToStringHasNoSpace(w.cursor.year);
    SplitFirst(name, year, ' ');
    SplitNone(year, ' ');
  }

  /** No two months share a name. */
  lemma MonthNamesDistinct(j: int, k: int)
    requires 0 <= j < 12 && 0 <= k < 12 && MonthNames[j] == MonthNames[k]
    ensures j == k
  {
    assert MonthNames[j][..3] == MonthNames[k][..3];
    assert |MonthNames[j]| == |MonthNames[k]|;
  }

  /** The heading names the displayed month and year unambiguously. */
  lemma HeadingDeterminesMonth(a: Widget, b: Widget)
    requires Heading(a) == Heading(b)
    ensures a.cursor.year == b.cursor.year && a.cursor.month == b.cursor.month
  {
    HeadingSplit(a);
    HeadingSplit(b);
    MonthNamesDistinct(a.cursor.month, b.cursor.month);
    IntToStringInjective(a.cursor.year, b.cursor.year);
  }

  // ---------------------------------------------------------------------------
  // Saving an event, and what the grid then shows

  /** The grid index of day `d` of the displayed month. */
  function DayIndex(w: Widget, d: int): int {
    FirstWeekday(w.cursor.year, w.cursor.month) + d - 1
  }

  /** As written, saving an event on a selected day of the displayed month lights that day's
      `has-event` flag only if an event was already stored under its render key or the two
      keys happen to be the same string (KeysMatch). */
  lemma SavedEventShownOnlyIfKeysMatch(w: Widget, today: CalendarDate, title: string, description: string)
    requires w.selected.Some? && title != ""
    requires w.selected.value.year == w.cursor.year && w.selected.value.month == w.cursor.month
    requires !(0 <= w.cursor.year <= 99)
    ensures var s := w.selected.value;
      var cells := Grid(SaveEvent(w, title, description).value, today);
      var i := DayIndex(w, s.day);
      && 0 <= i < |cells| && cells[i].Day? && cells[i].day == s.day
      && (cells[i].hasEvent <==> RenderKey(s.year, s.month, s.day) in w.events || KeysMatch(s))
  {
    var s := w.selected.value;
    var r := SaveEvent(w, title, description).value;
    SelectedCell(r, today);
    assert DayIndex(r, s.day) == DayIndex(w, s.day);
    var key := RenderKey(s.year, s.month, s.day);
    assert r.events.Keys == w.events.Keys + {IsoKey(s)};
    assert key in r.events <==> key in w.events || key == IsoKey(s);
    KeysAgree(s);
  }

  /** The selected day, when it lies in the displayed month, has its cell at DayIndex. */
  lemma SelectedCell(w: Widget, today: CalendarDate)
    requires w.selected.Some?
    requires w.selected.value.year == w.cursor.year && w.selected.value.month == w.cursor.month
    requires !(0 <= w.cursor.year <= 99)
    ensures var s, cells := w.selected.value, Grid(w, today);
      var i := DayIndex(w, s.day);
      0 <= i < |cells| && cells[i] == DayCell(w, today, s.year, s.month, s.day)
  {
    GridAt(w, today);
    MonthLengthIsDaysInMonth(w.cursor.year, w.cursor.month);
  }

  /** The smallest such case: an event saved for March 5, 2024 does not show on March 5. */
  lemma MarchFifthEventHidden(w: Widget, today: CalendarDate)
    requires w.cursor == Date(2024, 2, 1) && w.selected == Some(Date(2024, 2, 5)) && w.events == map[]
    ensures var cells := Grid(SaveEvent(w, "Meeting", "").value, today);
      var i := DayIndex(w, 5);
      0 <= i < |cells| && cells[i].Day? && cells[i].day == 5 && !cells[i].hasEvent
  {
    SavedEventShownOnlyIfKeysMatch(w, today, "Meeting", "");
  }

  /** Keyed the way the grid reads, a saved event always shows on the selected day. */
  lemma SavedEventShown(w: Widget, today: CalendarDate, title: string, description: string)
    requires w.selected.Some? && title != ""
    requires w.selected.value.year == w.cursor.year && w.selected.value.month == w.cursor.month
    requires !(0 <= w.cursor.year <= 99)
    ensures var s := w.selected.value;
      var cells := Grid(SaveEventFixed(w, title, description).value, today);
      var i := DayIndex(w, s.day);
      0 <= i < |cells| && cells[i].Day? && cells[i].day == s.day && cells[i].hasEvent
  {
    var r := SaveEventFixed(w, title, description).value;
    SelectedCell(r, today);
    assert DayIndex(r, w.selected.value.day) == DayIndex(w, w.selected.value.day);
  }

  /** ... and it is the only cell that changes. */
  lemma SavedEventTouchesOneCell(w: Widget, today: CalendarDate, title: string, description: string)
    requires w.selected.Some? && title != ""
    ensures var s := w.selected.value;
      var before, after := Grid(w, today), Grid(SaveEventFixed(w, title, description).value, today);
      && |after| == |before|
      && forall i :: 0 <= i < |before| && after[i] != before[i] ==>
           s.year == w.cursor.year && s.month == w.cursor.month && i == DayIndex(w, s.day)
  {
    var s := w.selected.value;
    var r := SaveEventFixed(w, title, description).value;
    var before, after := Grid(w, today), Grid(r, today);
    var y, m := w.cursor.year, w.cursor.month;
    var first := FirstWeekday(y, m);
    GridAt(w, today);
    GridAt(r, today);
    forall i | 0 <= i < |before| && after[i] != before[i]
      ensures s.year == y && s.month == m && i == DayIndex(w, s.day)
    {
      if i >= first && Date(y, m, i - first + 1) != s {
        SaveKeepsOtherCell(w, today, title, description, i - first + 1);
      }
    }
  }

  /** The cell of a day other than the selected one is the same after a save. */
  lemma SaveKeepsOtherCell(w: Widget, today: CalendarDate, title: string, description: string, d: int)
    requires w.selected.Some? && title != "" && d >= 1
    requires Date(w.cursor.year, w.cursor.month, d) != w.selected.value
    ensures var y, m := w.cursor.year, w.cursor.month;
      DayCell(SaveEventFixed(w, title, description).value, today, y, m, d) == DayCell(w, today, y, m, d)
  {
    var s := w.selected.value;
    var y, m := w.cursor.year, w.cursor.month;
    if RenderKey(y, m, d) == RenderKey(s.year, s.month, s.day) {
      RenderKeyInjective(Date(y, m, d), s);
    }
  }
}

/**
 The state of the calendar widget and the transitions its handlers make
 (class `AdvancedCalendar` in index.js).

 The cursor is the full `Date` in `currentDate`, not a (year, month) pair, so
 month and year navigation carry its day of month along and let `Date` fold it.
 The real clock is a parameter (`today`); the DOM is left out, and the modal
 dialog is a flag.
 */
module Calendar {
  import opened Wrappers
  import opened Gregorian
  import opened DateObject
  import opened DateKeys

  /** An event record: `{ title, description }`. */
  datatype Event = Event(title: string, description: string)

  /** `currentDate`, `selectedDate`, `events`, and whether the event modal is displayed. */
  datatype Widget = Widget(
    cursor: CalendarDate,
    selected: Option<CalendarDate>,
    events: map<string, Event>,
    modalOpen: bool)

  /** Why `saveEvent` can throw: `selectedDate` is still null, so `toISOString` has no receiver. */
  datatype SaveError = NoSelection

  /** The modal is only ever shown after a day was selected. */
  predicate Wf(w: Widget) {
    w.modalOpen ==> w.selected.Some?
  }

  /** The constructor: the cursor starts at the current date, nothing selected, no events. */
  function Init(today: CalendarDate): (w: Widget)
    ensures Wf(w) && w.events == map[]
    ensures w.cursor == today && w.selected == None && !w.modalOpen
  {
    Widget(today, None, map[], false)
  }

  predicate IsToday(today: CalendarDate, y: int, m: int, d: int) {
    y == today.year && m == today.month && d == today.day
  }

  predicate IsSelected(w: Widget, y: int, m: int, d: int) {
    w.selected.Some? && y == w.selected.value.year && m == w.selected.value.month
      && d == w.selected.value.day
  }

  /** `selectDate`: the selection becomes `new Date(y, m, d)` and the modal opens. */
  function SelectDate(w: Widget, y: int, m: int, d: int): (r: Widget)
    ensures r.cursor == w.cursor && r.events == w.events
    ensures r.modalOpen && Wf(r)
    ensures r.selected.Some?
  {
    w.(selected := Some(NewDate(y, m, d)), modalOpen := true)
  }

  /** `changeMonth`: `setMonth(getMonth() + delta)` on the cursor. */
  function ChangeMonth(w: Widget, delta: int): (r: Widget)
    ensures r.selected == w.selected && r.events == w.events && r.modalOpen == w.modalOpen
  {
    w.(cursor := SetMonth(w.cursor, w.cursor.month + delta))
  }

  /** `changeYear`: `setFullYear(getFullYear() + delta)` on the cursor. */
  function ChangeYear(w: Widget, delta: int): (r: Widget)
    ensures r.selected == w.selected && r.events == w.events && r.modalOpen == w.modalOpen
  {
    w.(cursor := SetFullYear(w.cursor, w.cursor.year + delta))
  }

  /** `goToToday`: the cursor becomes the current date. */
  function GoToToday(w: Widget, today: CalendarDate): (r: Widget)
    ensures r.selected == w.selected && r.events == w.events && r.modalOpen == w.modalOpen
    ensures IsToday(today, r.cursor.year, r.cursor.month, r.cursor.day)
  {
    w.(cursor := today)
  }

  /** `closeEventModal`, from the close control or a click on the modal's backdrop. */
  function CloseEventModal(w: Widget): (r: Widget)
    ensures !r.modalOpen && Wf(r)
    ensures r.cursor == w.cursor && r.selected == w.selected && r.events == w.events
  {
    w.(modalOpen := false)
  }

  /** `r` is `w` with the event stored under `key` and the modal closed: every other event is
      kept, and cursor and selection are unchanged. */
  predicate Stored(w: Widget, r: Widget, key: string, title: string, description: string) {
    && r.cursor == w.cursor && r.selected == w.selected
    && !r.modalOpen
    && r.events.Keys == w.events.Keys + {key}
    && r.events[key] == Event(title, description)
    && (forall k :: k in w.events && k != key ==> r.events[k] == w.events[k])
  }

  /** `this.events[key] = { title, description }`, then `closeEventModal`. */
  function Store(w: Widget, key: string, title: string, description: string): (r: Widget)
    ensures Stored(w, r, key, title, description)
  {
    w.(events := w.events[key := Event(title, description)], modalOpen := false)
  }

  /** `saveEvent`: with a non-empty title, store the event under the selection's ISO date and
      close the modal; with an empty title, change nothing.  With no selection it throws. */
  function SaveEvent(w: Widget, title: string, description: string): (r: Result<Widget, SaveError>)
    ensures r.Failure? <==> w.selected.None?
    ensures r.Success? && title == "" ==> r.value == w
    ensures r.Success? && title != "" ==> Stored(w, r.value, IsoKey(w.selected.value), title, description)
  {
    match w.selected
    case None => Failure(NoSelection)
    case Some(s) =>
      if title != "" then Success(Store(w, IsoKey(s), title, description)) else Success(w)
  }

  /** saveEvent keyed the way the grid looks events up (`${year}-${month + 1}-${day}`), so that
      the saved day shows its event; otherwise as SaveEvent. */
  function SaveEventFixed(w: Widget, title: string, description: string): (r: Result<Widget, SaveError>)
    ensures r.Failure? <==> w.selected.None?
    ensures r.Success? && title == "" ==> r.value == w
    ensures r.Success? && title != "" ==>
      var s := w.selected.value;
      Stored(w, r.value, RenderKey(s.year, s.month, s.day), title, description)
  {
    match w.selected
    case None => Failure(NoSelection)
    case Some(s) =>
      if title != "" then Success(Store(w, RenderKey(s.year, s.month, s.day), title, description))
      else Success(w)
  }

  /** A click anywhere in the window closes the modal when it lands on the modal's backdrop. */
  function WindowClick(w: Widget, onBackdrop: bool): (r: Widget)
    ensures r.modalOpen <==> w.modalOpen && !onBackdrop
    ensures r.cursor == w.cursor && r.selected == w.selected && r.events == w.events
  {
    if onBackdrop then CloseEventModal(w) else w
  }

  // ---------------------------------------------------------------------------
  // Navigation

  /** changeMonth lands on the month `year * 12 + month + delta` counts (floor-divided into a year
      and a month in 0..11), keeping the day when that month has it; otherwise the one to three
      excess days spill into the month after. */
  lemma ChangeMonthMoves(w: Widget, delta: int)
    ensures var ty, tm := w.cursor.year + (w.cursor.month + delta) / 12, (w.cursor.month + delta) % 12;
      ty * 12 + tm == w.cursor.year * 12 + w.cursor.month + delta
    ensures var ty, tm := w.cursor.year + (w.cursor.month + delta) / 12, (w.cursor.month + delta) % 12;
      w.cursor.day <= DaysInMonth(ty, tm) ==> ChangeMonth(w, delta).cursor == Date(ty, tm, w.cursor.day)
    ensures var ty, tm := w.cursor.year + (w.cursor.month + delta) / 12, (w.cursor.month + delta) % 12;
      var n := DaysInMonth(ty, tm);
      w.cursor.day > n ==>
        && ChangeMonth(w, delta).cursor == Date(NextMonth(ty, tm).0, NextMonth(ty, tm).1, w.cursor.day - n)
        && w.cursor.day - n <= 3
  {
    var k := w.cursor.month + delta;
    MonthCount(k);
    if w.cursor.day <= DaysInMonth(w.cursor.year + k / 12, k % 12) {
      ChangeMonthKeepsDay(w, delta);
    } else {
      ChangeMonthSpills(w, delta);
    }
  }

  lemma ChangeMonthKeepsDay(w: Widget, delta: int)
    requires w.cursor.day
      <= DaysInMonth(w.cursor.year + (w.cursor.month + delta) / 12, (w.cursor.month + delta) % 12)
    ensures ChangeMonth(w, delta).cursor
      == Date(w.cursor.year + (w.cursor.month + delta) / 12, (w.cursor.month + delta) % 12, w.cursor.day)
  {
    SetMonthKeepsDay(w.cursor, w.cursor.month + delta);
  }

  lemma ChangeMonthSpills(w: Widget, delta: int)
    requires w.cursor.day
      > DaysInMonth(w.cursor.year + (w.cursor.month + delta) / 12, (w.cursor.month + delta) % 12)
    ensures var ty, tm := w.cursor.year + (w.cursor.month + delta) / 12, (w.cursor.month + delta) % 12;
      var n := DaysInMonth(ty, tm);
      && ChangeMonth(w, delta).cursor == Date(NextMonth(ty, tm).0, NextMonth(ty, tm).1, w.cursor.day - n)
      && w.cursor.day - n <= 3
  {
    SetMonthSpills(w.cursor, w.cursor.month + delta);
  }

  lemma MonthCount(k: int)
    ensures (k / 12) * 12 + k % 12 == k
  {
  }

  /** Moving back by the same number of months undoes a move that kept the day. */
  lemma ChangeMonthUndo(w: Widget, delta: int)
    requires w.cursor.day
      <= DaysInMonth(w.cursor.year + (w.cursor.month + delta) / 12, (w.cursor.month + delta) % 12)
    ensures ChangeMonth(ChangeMonth(w, delta), -delta) == w
  {
    ChangeMonthMoves(w, delta);
    var w' := ChangeMonth(w, delta);
    ChangeMonthMoves(w', -delta);
    assert w'.cursor.month - delta == w.cursor.month + 12 * (w.cursor.year - w'.cursor.year);
  }

  /** January 31 plus one month is March 3 in a common year (2025). */
  lemma JanuaryThirtyFirstPlusOneMonth(w: Widget)
    requires w.cursor == Date(2025, 0, 31)
    ensures ChangeMonth(w, 1).cursor == Date(2025, 2, 3)
  {
    ChangeMonthMoves(w, 1);
  }

  /** changeYear keeps month and day, except that February 29 moved to a common year
      becomes March 1. */
  lemma ChangeYearMoves(w: Widget, delta: int)
    ensures var c := w.cursor; var y := c.year + delta;
      var e: Date := if c.month == 1 && c.day == 29 && !IsLeap(y) then Date(y, 2, 1) else Date(y, c.month, c.day);
      ChangeYear(w, delta).cursor == e
  {
    assert ChangeYear(w, delta).cursor == SetFullYear(w.cursor, w.cursor.year + delta);
    SetFullYearKeepsDay(w.cursor, w.cursor.year + delta);
  }

  /** Moving back by the same number of years undoes a move unless it left a February 29. */
  lemma ChangeYearUndo(w: Widget, delta: int)
    requires !(w.cursor.month == 1 && w.cursor.day == 29 && !IsLeap(w.cursor.year + delta))
    ensures ChangeYear(ChangeYear(w, delta), -delta) == w
  {
    ChangeYearMoves(w, delta);
    ChangeYearMoves(ChangeYear(w, delta), -delta);
  }

  /** February 29, 2024 plus one year is March 1, 2025. */
  lemma LeapDayPlusOneYear(w: Widget)
    requires w.cursor == Date(2024, 1, 29)
    ensures ChangeYear(w, 1).cursor == Date(2025, 2, 1)
  {
    ChangeYearMoves(w, 1);
  }

  // ---------------------------------------------------------------------------
  // Selection and events

  /** Selecting a real day (outside the years 0..99, which the constructor maps to 19xx) makes
      that day, and no other, the selected one. */
  lemma SelectDateSelects(w: Widget, date: CalendarDate)
    requires !(0 <= date.year <= 99)
    ensures var r := SelectDate(w, date.year, date.month, date.day);
      forall y, m, d :: IsSelected(r, y, m, d) <==> Date(y, m, d) == date
  {
    NewDateOfValid(date);
  }

  /** Saving twice on the same selection keeps only the second event. */
  lemma SaveOverwrites(w: Widget, t1: string, d1: string, t2: string, d2: string)
    requires w.selected.Some? && t1 != "" && t2 != ""
    ensures SaveEvent(SaveEvent(w, t1, d1).value, t2, d2) == SaveEvent(w, t2, d2)
  {
    var key := IsoKey(w.selected.value);
    assert w.events[key := Event(t1, d1)][key := Event(t2, d2)] == w.events[key := Event(t2, d2)];
  }

  /** While the modal is open a save cannot throw: a day has been selected. */
  lemma SaveFromOpenModal(w: Widget, title: string, description: string)
    requires Wf(w) && w.modalOpen
    ensures SaveEvent(w, title, description).Success?
    ensures title != "" ==> Wf(SaveEvent(w, title, description).value)
  {
  }

  /** Every transition keeps the modal closed until a day has been selected. */
  lemma TransitionsKeepWf(w: Widget, today: CalendarDate, delta: int, title: string, description: string)
    requires Wf(w)
    ensures Wf(ChangeMonth(w, delta)) && Wf(ChangeYear(w, delta)) && Wf(GoToToday(w, today))
    ensures Wf(WindowClick(w, true)) && Wf(WindowClick(w, false))
    ensures SaveEvent(w, title, description).Success? ==> Wf(SaveEvent(w, title, description).value)
    ensures SaveEventFixed(w, title, description).Success?
      ==> Wf(SaveEventFixed(w, title, description).value)
  {
  }
}

/**
 Proleptic Gregorian calendar arithmetic as ECMAScript `Date` performs it
 (section 21.4.1 of ECMA-262, "Time Values and Time Range" through "MakeDay").

 Months are zero-based (0 = January) as `getMonth` returns them, and days are
 counted from the epoch 1970-01-01, which is day 0.  `Normalize` is the
 calendar half of the `Date` constructor and of `setMonth`/`setFullYear`: it
 turns an out-of-range month or day into the real date with the same day count.
 */
module Gregorian {

  /** A (year, month, day) triple with a zero-based month; `Valid` picks out real dates. */
  datatype Date = Date(year: int, month: int, day: int)

  predicate IsLeap(y: int) {
    y % 4 == 0 && (y % 100 != 0 || y % 400 == 0)
  }

  function DaysInYear(y: int): int {
    if IsLeap(y) then 366 else 365
  }

  /** Length of month `m` (0-based) of year `y`. */
  function DaysInMonth(y: int, m: int): (n: int)
    requires 0 <= m < 12
    ensures 28 <= n <= 31
    ensures n == 29 <==> m == 1 && IsLeap(y)
  {
    if m == 1 then (if IsLeap(y) then 29 else 28)
    else if m == 3 || m == 5 || m == 8 || m == 10 then 30
    else 31
  }

  predicate Valid(d: Date) {
    0 <= d.month < 12 && 1 <= d.day <= DaysInMonth(d.year, d.month)
  }

  /** The dates a `Date` object can hold: its fields always name a real day. */
  type CalendarDate = d: Date | Valid(d) witness Date(1970, 0, 1)

  /** Days from 1970-01-01 to January 1 of year `y` (ECMA-262 DayFromYear). */
  function DayFromYear(y: int): int {
    365 * (y - 1970) + (y - 1969) / 4 - (y - 1901) / 100 + (y - 1601) / 400
  }

  /** Days of year `y` that come before month `m`: the sum of the first `m` month lengths. */
  function DaysBeforeMonth(y: int, m: int): int
    requires 0 <= m <= 12
  {
    if m == 0 then 0 else DaysBeforeMonth(y, m - 1) + DaysInMonth(y, m - 1)
  }

  /** Day count of the (possibly out-of-range) triple, as ECMA-262 MakeDay computes it:
      the month is folded into the year by floor division, the day is added as an offset. */
  function MakeDay(y: int, m: int, d: int): int {
    var ym := y + m / 12;
    var mn := m % 12;
    DayFromYear(ym) + DaysBeforeMonth(ym, mn) + d - 1
  }

  function DayNumber(date: Date): int {
    MakeDay(date.year, date.month, date.day)
  }

  /** Day of the week, 0 = Sunday (ECMA-262 WeekDay: 1970-01-01 was a Thursday). */
  function Weekday(date: Date): (w: int)
    ensures 0 <= w < 7
  {
    (DayNumber(date) + 4) % 7
  }

  function NextMonth(y: int, m: int): (int, int) {
    if m == 11 then (y + 1, 0) else (y, m + 1)
  }

  function PrevMonth(y: int, m: int): (int, int) {
    if m == 0 then (y - 1, 11) else (y, m - 1)
  }

  /** The real date whose day count is MakeDay(y, m, d) (see NormalizeDayNumber). */
  function Normalize(y: int, m: int, d: int): CalendarDate {
    var ym := y + m / 12;
    var mn := m % 12;
    if d >= 1 then WalkForward(ym, mn, d) else WalkBack(ym, mn, d)
  }

  /** Consumes whole months while the day overflows the current month. */
  function WalkForward(y: int, m: int, d: int): CalendarDate
    requires 0 <= m < 12 && d >= 1
    decreases d
  {
    var n := DaysInMonth(y, m);
    if d <= n then Date(y, m, d)
    else
      var (ny, nm) := NextMonth(y, m);
      WalkForward(ny, nm, d - n)
  }

  /** Borrows whole months while the day is below 1. */
  function WalkBack(y: int, m: int, d: int): CalendarDate
    requires 0 <= m < 12 && d < 1
    decreases -d
  {
    var (py, pm) := PrevMonth(y, m);
    var d' := d + DaysInMonth(py, pm);
    if d' >= 1 then Date(py, pm, d') else WalkBack(py, pm, d')
  }

  // ---------------------------------------------------------------------------
  // The day count

  /** The ECMA-262 DayFromYear formula steps by the length the leap rule gives. */
  lemma YearLength(y: int)
    ensures DayFromYear(y + 1) == DayFromYear(y) + DaysInYear(y)
  {
    FourYearStep(y);
    CenturyStep(y);
    QuadCenturyStep(y);
    LeapCount(y);
    var a, b, c := (y - 1969) / 4, (y - 1901) / 100, (y - 1601) / 400;
    assert DayFromYear(y) == 365 * (y - 1970) + a - b + c;
    assert DayFromYear(y + 1) == 365 * (y - 1969) + (y - 1968) / 4 - (y - 1900) / 100 + (y - 1600) / 400;
  }

  /** The leap rule as the number of the three divisibility tests that pass, with signs. */
  lemma LeapCount(y: int)
    ensures DaysInYear(y) == 365 + (if y % 4 == 0 then 1 else 0) - (if y % 100 == 0 then 1 else 0)
      + (if y % 400 == 0 then 1 else 0)
  {
    if y % 400 == 0 {
      QuadCenturyIsCentury(y);
      CenturyIsFourYear(y);
    } else if y % 100 == 0 {
      CenturyIsFourYear(y);
    }
  }

  lemma QuadCenturyIsCentury(y: int)
    requires y % 400 == 0
    ensures y % 100 == 0
  {
    var k := y / 400;
    assert y == 100 * (4 * k);
    assert y / 100 == 4 * k;
  }

  lemma CenturyIsFourYear(y: int)
    requires y % 100 == 0
    ensures y % 4 == 0
  {
    var k := y / 100;
    assert y == 4 * (25 * k);
    assert y / 4 == 25 * k;
  }

  lemma FourYearStep(y: int)
    ensures (y - 1968) / 4 == (y - 1969) / 4 + (if y % 4 == 0 then 1 else 0)
  {
    var q, r := (y - 1969) / 4, (y - 1969) % 4;
    assert y == 4 * q + r + 1969;
    if r == 3 {
      assert y == 4 * (q + 493) && y - 1968 == 4 * (q + 1);
    } else {
      assert y - 1968 == 4 * q + (r + 1);
    }
  }

  lemma CenturyStep(y: int)
    ensures (y - 1900) / 100 == (y - 1901) / 100 + (if y % 100 == 0 then 1 else 0)
  {
    var q, r := (y - 1901) / 100, (y - 1901) % 100;
    assert y == 100 * q + r + 1901;
    if r == 99 {
      assert y == 100 * (q + 20) && y - 1900 == 100 * (q + 1);
    } else {
      assert y - 1900 == 100 * q + (r + 1);
    }
  }

  lemma QuadCenturyStep(y: int)
    ensures (y - 1600) / 400 == (y - 1601) / 400 + (if y % 400 == 0 then 1 else 0)
  {
    var q, r := (y - 1601) / 400, (y - 1601) % 400;
    assert y == 400 * q + r + 1601;
    if r == 399 {
      assert y == 400 * (q + 5) && y - 1600 == 400 * (q + 1);
    } else {
      assert y - 1600 == 400 * q + (r + 1);
    }
  }

  /** The twelve month lengths add up to the year length of the day-count formula. */
  lemma {:induction false} MonthsFillYear(y: int)
    ensures DaysBeforeMonth(y, 12) == DaysInYear(y)
    ensures DaysBeforeMonth(y, 12) == DayFromYear(y + 1) - DayFromYear(y)
  {
    assert DaysBeforeMonth(y, 1) == DaysBeforeMonth(y, 0) + DaysInMonth(y, 0);
    assert DaysBeforeMonth(y, 2) == DaysBeforeMonth(y, 1) + DaysInMonth(y, 1);
    assert DaysBeforeMonth(y, 3) == DaysBeforeMonth(y, 2) + DaysInMonth(y, 2);
    assert DaysBeforeMonth(y, 4) == DaysBeforeMonth(y, 3) + DaysInMonth(y, 3);
    assert DaysBeforeMonth(y, 5) == DaysBeforeMonth(y, 4) + DaysInMonth(y, 4);
    assert DaysBeforeMonth(y, 6) == DaysBeforeMonth(y, 5) + DaysInMonth(y, 5);
    assert DaysBeforeMonth(y, 7) == DaysBeforeMonth(y, 6) + DaysInMonth(y, 6);
    assert DaysBeforeMonth(y, 8) == DaysBeforeMonth(y, 7) + DaysInMonth(y, 7);
    assert DaysBeforeMonth(y, 9) == DaysBeforeMonth(y, 8) + DaysInMonth(y, 8);
    assert DaysBeforeMonth(y, 10) == DaysBeforeMonth(y, 9) + DaysInMonth(y, 9);
    assert DaysBeforeMonth(y, 11) == DaysBeforeMonth(y, 10) + DaysInMonth(y, 10);
    assert DaysBeforeMonth(y, 12) == DaysBeforeMonth(y, 11) + DaysInMonth(y, 11);
    YearLength(y);
  }

  lemma MakeDayInYear(y: int, m: int, d: int)
    requires 0 <= m < 12
    ensures MakeDay(y, m, d) == DayFromYear(y) + DaysBeforeMonth(y, m) + d - 1
  {
    assert m / 12 == 0 && m % 12 == m;
  }

  /** MakeDay folds the month into the year before counting. */
  lemma MakeDayFolds(y: int, m: int, d: int)
    ensures MakeDay(y, m, d) == MakeDay(y + m / 12, m % 12, d)
  {
    MakeDayInYear(y + m / 12, m % 12, d);
  }

  /** Day d + n of a month, n being the month's length, is day d of the next month. */
  lemma NextMonthStarts(y: int, m: int, d: int)
    requires 0 <= m < 12
    ensures MakeDay(NextMonth(y, m).0, NextMonth(y, m).1, d) == MakeDay(y, m, d + DaysInMonth(y, m))
  {
    if m == 11 {
      YearEndStep(y, d);
    } else {
      MonthStep(y, m, d);
    }
  }

  /** Day d of a month is day d + n of the previous month, n being that month's length. */
  lemma PrevMonthStarts(y: int, m: int, d: int)
    requires 0 <= m < 12
    ensures var (py, pm) := PrevMonth(y, m);
      MakeDay(py, pm, d + DaysInMonth(py, pm)) == MakeDay(y, m, d)
  {
    if m == 0 {
      YearEndStep(y - 1, d);
    } else {
      MonthStep(y, m - 1, d);
    }
  }

  lemma MonthStep(y: int, m: int, d: int)
    requires 0 <= m < 11
    ensures MakeDay(y, m + 1, d) == MakeDay(y, m, d + DaysInMonth(y, m))
  {
    MakeDayInYear(y, m + 1, d);
    MakeDayInYear(y, m, d + DaysInMonth(y, m));
    assert DaysBeforeMonth(y, m + 1) == DaysBeforeMonth(y, m) + DaysInMonth(y, m);
  }

  lemma YearEndStep(y: int, d: int)
    ensures MakeDay(y + 1, 0, d) == MakeDay(y, 11, d + 31)
  {
    MakeDayInYear(y + 1, 0, d);
    MakeDayInYear(y, 11, d + 31);
    MonthsFillYear(y);
    assert DaysBeforeMonth(y, 12) == DaysBeforeMonth(y, 11) + 31;
  }

  lemma {:induction false} WalkForwardDayNumber(y: int, m: int, d: int)
    requires 0 <= m < 12 && d >= 1
    ensures DayNumber(WalkForward(y, m, d)) == MakeDay(y, m, d)
    decreases d
  {
    var n := DaysInMonth(y, m);
    if d > n {
      var (ny, nm) := NextMonth(y, m);
      NextMonthStarts(y, m, d - n);
      WalkForwardDayNumber(ny, nm, d - n);
    }
  }

  lemma {:induction false} WalkBackDayNumber(y: int, m: int, d: int)
    requires 0 <= m < 12 && d < 1
    ensures DayNumber(WalkBack(y, m, d)) == MakeDay(y, m, d)
    decreases -d
  {
    var (py, pm) := PrevMonth(y, m);
    var d' := d + DaysInMonth(py, pm);
    PrevMonthStarts(y, m, d);
    if d' < 1 {
      WalkBackDayNumber(py, pm, d');
    }
  }

  /** Normalize keeps the day count MakeDay gives the out-of-range triple. */
  lemma NormalizeDayNumber(y: int, m: int, d: int)
    ensures DayNumber(Normalize(y, m, d)) == MakeDay(y, m, d)
  {
    var ym, mn := y + m / 12, m % 12;
    MakeDayFolds(y, m, d);
    if d >= 1 {
      WalkForwardDayNumber(ym, mn, d);
    } else {
      WalkBackDayNumber(ym, mn, d);
    }
  }

  // ---------------------------------------------------------------------------
  // One real date per day count

  lemma {:induction false} DaysBeforeMonthMonotone(y: int, a: int, b: int)
    requires 0 <= a <= b <= 12
    ensures DaysBeforeMonth(y, a) <= DaysBeforeMonth(y, b)
    decreases b - a
  {
    if a < b {
      DaysBeforeMonthMonotone(y, a, b - 1);
    }
  }

  lemma {:induction false} DayFromYearMonotone(a: int, b: int)
    requires a <= b
    ensures DayFromYear(a) <= DayFromYear(b)
    decreases b - a
  {
    if a < b {
      DayFromYearMonotone(a, b - 1);
      YearLength(b - 1);
    }
  }

  /** A real date's day count lies in the span of its own year and month. */
  lemma DayNumberWithinMonth(date: CalendarDate)
    ensures DayFromYear(date.year) + DaysBeforeMonth(date.year, date.month) <= DayNumber(date)
    ensures DayNumber(date) < DayFromYear(date.year) + DaysBeforeMonth(date.year, date.month + 1)
    ensures DayFromYear(date.year) <= DayNumber(date) < DayFromYear(date.year + 1)
  {
    MakeDayInYear(date.year, date.month, date.day);
    assert DaysBeforeMonth(date.year, date.month + 1)
      == DaysBeforeMonth(date.year, date.month) + DaysInMonth(date.year, date.month);
    DaysBeforeMonthMonotone(date.year, date.month + 1, 12);
    DaysBeforeMonthMonotone(date.year, 0, date.month);
    MonthsFillYear(date.year);
  }

  /** A real date of an earlier year has a smaller day count. */
  lemma EarlierYearEarlierDay(a: CalendarDate, b: CalendarDate)
    requires a.year < b.year
    ensures DayNumber(a) < DayNumber(b)
  {
    DayNumberWithinMonth(a);
    DayNumberWithinMonth(b);
    DayFromYearMonotone(a.year + 1, b.year);
  }

  /** Within one year, a real date of an earlier month has a smaller day count. */
  lemma EarlierMonthEarlierDay(a: CalendarDate, b: CalendarDate)
    requires a.year == b.year && a.month < b.month
    ensures DayNumber(a) < DayNumber(b)
  {
    DayNumberWithinMonth(a);
    DayNumberWithinMonth(b);
    DaysBeforeMonthMonotone(a.year, a.month + 1, b.month);
  }

  /** Distinct real dates have distinct day counts. */
  lemma DayNumberInjective(a: CalendarDate, b: CalendarDate)
    requires DayNumber(a) == DayNumber(b)
    ensures a == b
  {
    if a.year < b.year {
      EarlierYearEarlierDay(a, b);
    } else if b.year < a.year {
      EarlierYearEarlierDay(b, a);
    } else if a.month < b.month {
      EarlierMonthEarlierDay(a, b);
    } else if b.month < a.month {
      EarlierMonthEarlierDay(b, a);
    } else {
      MakeDayInYear(a.year, a.month, a.day);
      MakeDayInYear(b.year, b.month, b.day);
    }
  }

  /** Normalize is the one real date whose day count is MakeDay(y, m, d). */
  lemma NormalizeUnique(y: int, m: int, d: int, e: CalendarDate)
    ensures Normalize(y, m, d) == e <==> DayNumber(e) == MakeDay(y, m, d)
  {
    NormalizeDayNumber(y, m, d);
    if DayNumber(e) == MakeDay(y, m, d) {
      DayNumberInjective(Normalize(y, m, d), e);
    }
  }

  /** A date that is already real is left as it is. */
  lemma NormalizeKeepsValid(e: CalendarDate)
    ensures Normalize(e.year, e.month, e.day) == e
  {
    NormalizeUnique(e.year, e.month, e.day, e);
  }

  /** Each step of one day moves the weekday on by one, across month and year ends. */
  lemma WeekdayAdvances(y: int, m: int, d: int)
    ensures Weekday(Normalize(y, m, d + 1)) == (Weekday(Normalize(y, m, d)) + 1) % 7
  {
    NormalizeDayNumber(y, m, d);
    NormalizeDayNumber(y, m, d + 1);
    var n := DayNumber(Normalize(y, m, d));
    assert DayNumber(Normalize(y, m, d + 1)) == n + 1;
    WeekdayStep(n);
  }

  lemma WeekdayStep(n: int)
    ensures (n + 5) % 7 == ((n + 4) % 7 + 1) % 7
  {
    var q := (n + 4) / 7;
    assert n + 4 == 7 * q + (n + 4) % 7;
  }
}

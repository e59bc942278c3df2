/**
 The few `Date` operations the calendar relies on, over the calendar fields of
 a `Date` (its time of day is not modelled): the three-argument constructor,
 `setMonth`, `setFullYear` and `getDay`.
 */
module DateObject {
  import opened Gregorian

  /** The constructor reads a year from 0 to 99 as 1900 + year (ECMA-262, the Date
      constructor's treatment of `yr`); setFullYear and setMonth do not. */
  function ConstructorYear(y: int): int {
    if 0 <= y <= 99 then 1900 + y else y
  }

  /** `new Date(y, m, d)`: the out-of-range month and day are folded in by MakeDay. */
  function NewDate(y: int, m: int, d: int): CalendarDate {
    Normalize(ConstructorYear(y), m, d)
  }

  /** `date.setMonth(m)`: keeps year and day of month, and lets MakeDay fold the result. */
  function SetMonth(date: CalendarDate, m: int): CalendarDate {
    Normalize(date.year, m, date.day)
  }

  /** `date.setFullYear(y)`: keeps month and day of month, and lets MakeDay fold the result. */
  function SetFullYear(date: CalendarDate, y: int): CalendarDate {
    Normalize(y, date.month, date.day)
  }

  /** `date.getDay()`: 0 = Sunday. */
  function GetDay(date: CalendarDate): (w: int)
    ensures 0 <= w < 7
  {
    Weekday(date)
  }

  /** Day 0 of month m + 1 is the last day of month m, so its day of month is m's length. */
  lemma DayZeroIsLastDay(y: int, m: int)
    requires 0 <= m < 12
    ensures NewDate(y, m + 1, 0)
      == Date(ConstructorYear(y), m, DaysInMonth(ConstructorYear(y), m))
  {
    var cy := ConstructorYear(y);
    var e := Date(cy, m, DaysInMonth(cy, m));
    if m == 11 {
      MakeDayFolds(cy, 12, 0);
      YearEndStep(cy, 0);
    } else {
      MonthStep(cy, m, 0);
    }
    assert DayNumber(e) == MakeDay(cy, m + 1, 0);
    NormalizeUnique(cy, m + 1, 0, e);
  }

  /** Day 1 of an in-range month needs no folding. */
  lemma FirstOfMonth(y: int, m: int)
    requires 0 <= m < 12
    ensures NewDate(y, m, 1) == Date(ConstructorYear(y), m, 1)
  {
    NormalizeKeepsValid(Date(ConstructorYear(y), m, 1));
  }

  /** A real date outside the years 0..99 is constructed as itself. */
  lemma NewDateOfValid(e: CalendarDate)
    requires !(0 <= e.year <= 99)
    ensures NewDate(e.year, e.month, e.day) == e
  {
    NormalizeKeepsValid(e);
  }

  /** setMonth(m) lands on month m, folded into the year, with the same day when that month
      has the day. */
  lemma SetMonthKeepsDay(date: CalendarDate, m: int)
    requires date.day <= DaysInMonth(date.year + m / 12, m % 12)
    ensures SetMonth(date, m) == Date(date.year + m / 12, m % 12, date.day)
  {
    var ty, tm := date.year + m / 12, m % 12;
    MakeDayInYear(ty, tm, date.day);
    NormalizeUnique(date.year, m, date.day, Date(ty, tm, date.day));
  }

  /** Otherwise the days past the end of that month spill into the month after it. */
  lemma SetMonthSpills(date: CalendarDate, m: int)
    requires date.day > DaysInMonth(date.year + m / 12, m % 12)
    ensures SetMonth(date, m)
      == Date(NextMonth(date.year + m / 12, m % 12).0, NextMonth(date.year + m / 12, m % 12).1,
              date.day - DaysInMonth(date.year + m / 12, m % 12))
  {
    var ty, tm := date.year + m / 12, m % 12;
    var n := DaysInMonth(ty, tm);
    var e := Date(NextMonth(ty, tm).0, NextMonth(ty, tm).1, date.day - n);
    assert Valid(e);
    assert DayNumber(e) == MakeDay(date.year, m, date.day) by {
      MakeDayInYear(ty, tm, date.day);
      NextMonthStarts(ty, tm, date.day - n);
    }
    NormalizeUnique(date.year, m, date.day, e);
  }

  /** setFullYear(y) keeps month and day, except that February 29 moved to a common
      year becomes March 1. */
  lemma SetFullYearKeepsDay(date: CalendarDate, y: int)
    ensures SetFullYear(date, y)
      == if date.month == 1 && date.day == 29 && !IsLeap(y) then Date(y, 2, 1)
         else Date(y, date.month, date.day)
  {
    if date.month == 1 && date.day == 29 && !IsLeap(y) {
      NextMonthStarts(y, 1, 1);
      NormalizeUnique(y, 1, 29, Date(y, 2, 1));
    } else {
      NormalizeUnique(y, date.month, date.day, Date(y, date.month, date.day));
    }
  }
}

/**
 The two strings the widget uses as keys of its event map.

 Rendering looks a day up under `${year}-${month + 1}-${day}` (index.js:57),
 with no padding.  Saving stores under the date part of `toISOString()`
 (index.js:119), which is zero-padded and, outside the years 0..9999, written
 with a sign and six year digits.  `toISOString` works on the UTC instant; the
 model fixes the host's UTC offset at zero, so the ISO date is the local date.
 */
module DateKeys {
  import opened Wrappers
  import opened Gregorian
  import opened Decimal

  /** The lookup key of day `d` of month `m` (0-based) of year `y`, as the grid builds it. */
  function RenderKey(y: int, m: int, d: int): string {
    IntToString(y) + "-" + IntToString(m + 1) + "-" + IntToString(d)
  }

  /** The year field of an ISO-8601 date string (ECMA-262 Date Time String Format). */
  function IsoYear(y: int): string {
    if 0 <= y <= 9999 then ZeroPad(NatToString(y), 4)
    else (if y < 0 then "-" else "+") + ZeroPad(NatToString(if y < 0 then -y else y), 6)
  }

  /** `toISOString().split('T')[0]` of local midnight of `date`, at UTC offset zero. */
  function IsoKey(date: CalendarDate): string {
    IsoYear(date.year) + "-" + ZeroPad(NatToString(date.month + 1), 2)
      + "-" + ZeroPad(NatToString(date.day), 2)
  }

  // ---------------------------------------------------------------------------
  // Reading keys back

  /** The date whose year, month number and day are the three numerals, the year negated when
      it was preceded by a minus sign. */
  function ReadFields(negative: bool, ys: string, ms: string, ds: string): Option<Date> {
    match (ParseNat(ys), ParseNat(ms), ParseNat(ds))
    case (Some(y), Some(mo), Some(d)) => Some(Date(if negative then -(y as int) else y, mo as int - 1, d))
    case _ => None
  }

  function ParseRenderKey(s: string): Option<Date> {
    var p := Split(s, '-');
    if |p| == 3 then ReadFields(false, p[0], p[1], p[2])
    else if |p| == 4 && p[0] == "" then ReadFields(true, p[1], p[2], p[3])
    else None
  }

  function ParseIsoKey(s: string): Option<Date> {
    var p := Split(s, '-');
    if |p| == 3 && |p[0]| > 0 && p[0][0] == '+' then ReadFields(false, p[0][1..], p[1], p[2])
    else if |p| == 3 then ReadFields(false, p[0], p[1], p[2])
    else if |p| == 4 && p[0] == "" then ReadFields(true, p[1], p[2], p[3])
    else None
  }

  lemma SplitThree(a: string, b: string, c: string)
    requires AllDigits(a) && AllDigits(b) && AllDigits(c)
    ensures Split(a + "-" + b + "-" + c, '-') == [a, b, c]
  {
    DigitsHaveNoSign(a);
    DigitsHaveNoSign(b);
    DigitsHaveNoSign(c);
    assert a + "-" + b + "-" + c == a + ['-'] + (b + ['-'] + c);
    SplitFirst(a, b + ['-'] + c, '-');
    SplitFirst(b, c, '-');
    SplitNone(c, '-');
  }

  lemma SplitSigned(a: string, b: string, c: string)
    requires AllDigits(a) && AllDigits(b) && AllDigits(c)
    ensures Split("-" + a + "-" + b + "-" + c, '-') == ["", a, b, c]
  {
    assert "-" + a + "-" + b + "-" + c == [] + ['-'] + (a + "-" + b + "-" + c);
    SplitFirst([], a + "-" + b + "-" + c, '-');
    SplitThree(a, b, c);
  }

  /** A render key reads back as the year, month and day it was built from. */
  lemma RenderKeyRoundTrip(y: int, m: int, d: int)
    requires m >= 0 && d >= 0
    ensures ParseRenderKey(RenderKey(y, m, d)) == Some(Date(y, m, d))
  {
    if y < 0 {
      RenderKeyNegativeYear(y, m, d);
    } else {
      RenderKeyNonNegativeYear(y, m, d);
    }
  }

  lemma RenderKeyNonNegativeYear(y: int, m: int, d: int)
    requires y >= 0 && m >= 0 && d >= 0
    ensures ParseRenderKey(RenderKey(y, m, d)) == Some(Date(y, m, d))
  {
    var a, b, c := NatToString(y), NatToString(m + 1), NatToString(d);
    NatToStringRoundTrip(y);
    NatToStringRoundTrip(m + 1);
    NatToStringRoundTrip(d);
    assert RenderKey(y, m, d) == a + "-" + b + "-" + c;
    SplitThree(a, b, c);
    assert ParseRenderKey(RenderKey(y, m, d)) == ReadFields(false, a, b, c);
  }

  lemma RenderKeyNegativeYear(y: int, m: int, d: int)
    requires y < 0 && m >= 0 && d >= 0
    ensures ParseRenderKey(RenderKey(y, m, d)) == Some(Date(y, m, d))
  {
    var a, b, c := NatToString(-y), NatToString(m + 1), NatToString(d);
    NatToStringRoundTrip(-y);
    NatToStringRoundTrip(m + 1);
    NatToStringRoundTrip(d);
    var key := RenderKey(y, m, d);
    assert key == "-" + a + "-" + b + "-" + c;
    SplitSigned(a, b, c);
    assert ParseRenderKey(key) == ReadFields(true, a, b, c);
    ReadNegativeFields(y, m, d, a, b, c);
  }

  /** The ISO key of a date reads back as that date. */
  lemma IsoKeyRoundTrip(date: CalendarDate)
    ensures ParseIsoKey(IsoKey(date)) == Some(date)
  {
    var b := ZeroPad(NatToString(date.month + 1), 2);
    var c := ZeroPad(NatToString(date.day), 2);
    PaddedRoundTrip(date.month + 1, 2);
    PaddedRoundTrip(date.day, 2);
    assert ParseNat(b) == Some(date.month + 1) && ParseNat(c) == Some(date.day);
    if 0 <= date.year <= 9999 {
      IsoFourDigitYear(date, b, c);
    } else if date.year < 0 {
      IsoNegativeYear(date, b, c);
    } else {
      IsoPositiveYear(date, b, c);
    }
  }

  lemma IsoFourDigitYear(date: CalendarDate, b: string, c: string)
    requires 0 <= date.year <= 9999
    requires b == ZeroPad(NatToString(date.month + 1), 2) && c == ZeroPad(NatToString(date.day), 2)
    requires ParseNat(b) == Some(date.month + 1) && ParseNat(c) == Some(date.day)
    ensures ParseIsoKey(IsoKey(date)) == Some(date)
  {
    var a := ZeroPad(NatToString(date.year), 4);
    PaddedRoundTrip(date.year, 4);
    var key := IsoKey(date);
    assert key == a + "-" + b + "-" + c;
    SplitThree(a, b, c);
    assert IsDigit(a[0]);
    assert ParseIsoKey(key) == ReadFields(false, a, b, c);
  }

  lemma IsoNegativeYear(date: CalendarDate, b: string, c: string)
    requires date.year < 0
    requires b == ZeroPad(NatToString(date.month + 1), 2) && c == ZeroPad(NatToString(date.day), 2)
    requires ParseNat(b) == Some(date.month + 1) && ParseNat(c) == Some(date.day)
    ensures ParseIsoKey(IsoKey(date)) == Some(date)
  {
    var a := ZeroPad(NatToString(-date.year), 6);
    NegativeIsoKey(date, b, c);
    ParseSignedIsoKey(a, b, c);
    PaddedRoundTrip(-date.year, 6);
    ReadNegativeFields(date.year, date.month, date.day, a, b, c);
  }

  lemma ReadNegativeFields(y: int, m: int, d: int, a: string, b: string, c: string)
    requires y < 0 && m >= 0 && d >= 0 && ParseNat(a) == Some(-y)
    requires ParseNat(b) == Some(m + 1) && ParseNat(c) == Some(d)
    ensures ReadFields(true, a, b, c) == Some(Date(y, m, d))
  {
  }

  lemma NegativeIsoKey(date: CalendarDate, b: string, c: string)
    requires date.year < 0
    requires b == ZeroPad(NatToString(date.month + 1), 2) && c == ZeroPad(NatToString(date.day), 2)
    ensures IsoKey(date) == "-" + ZeroPad(NatToString(-date.year), 6) + "-" + b + "-" + c
  {
  }

  lemma ParseSignedIsoKey(a: string, b: string, c: string)
    requires AllDigits(a) && AllDigits(b) && AllDigits(c)
    ensures ParseIsoKey("-" + a + "-" + b + "-" + c) == ReadFields(true, a, b, c)
  {
    SplitSigned(a, b, c);
  }

  lemma IsoPositiveYear(date: CalendarDate, b: string, c: string)
    requires date.year > 9999
    requires b == ZeroPad(NatToString(date.month + 1), 2) && c == ZeroPad(NatToString(date.day), 2)
    requires ParseNat(b) == Some(date.month + 1) && ParseNat(c) == Some(date.day)
    ensures ParseIsoKey(IsoKey(date)) == Some(date)
  {
    var a := ZeroPad(NatToString(date.year), 6);
    PaddedRoundTrip(date.year, 6);
    var key := IsoKey(date);
    assert key == "+" + a + "-" + b + "-" + c;
    SplitPlus(a, b, c);
    assert ("+" + a)[1..] == a;
    assert ParseIsoKey(key) == ReadFields(false, a, b, c);
  }

  lemma SplitPlus(a: string, b: string, c: string)
    requires AllDigits(a) && AllDigits(b) && AllDigits(c)
    ensures Split("+" + a + "-" + b + "-" + c, '-') == ["+" + a, b, c]
  {
    DigitsHaveNoSign(a);
    DigitsHaveNoSign(b);
    DigitsHaveNoSign(c);
    assert "+" + a + "-" + b + "-" + c == ("+" + a) + ['-'] + (b + ['-'] + c);
    SplitFirst("+" + a, b + ['-'] + c, '-');
    SplitFirst(b, c, '-');
    SplitNone(c, '-');
  }

  /** Distinct days never share a render key, so a cell's has-event flag is about its own day. */
  lemma RenderKeyInjective(a: Date, b: Date)
    requires a.month >= 0 && a.day >= 0 && b.month >= 0 && b.day >= 0
    requires RenderKey(a.year, a.month, a.day) == RenderKey(b.year, b.month, b.day)
    ensures a == b
  {
    RenderKeyRoundTrip(a.year, a.month, a.day);
    RenderKeyRoundTrip(b.year, b.month, b.day);
  }

  /** Distinct days never share a save key, so saving on one day never overwrites another's event. */
  lemma IsoKeyInjective(a: CalendarDate, b: CalendarDate)
    requires IsoKey(a) == IsoKey(b)
    ensures a == b
  {
    IsoKeyRoundTrip(a);
    IsoKeyRoundTrip(b);
  }

  // ---------------------------------------------------------------------------
  // Where the two keys meet

  /** A month number or day number has one digit below 10 and two from 10 to 99. */
  lemma SmallNumeral(n: nat)
    requires n < 100
    ensures |NatToString(n)| == (if n < 10 then 1 else 2)
    ensures |ZeroPad(NatToString(n), 2)| == 2
  {
    NatToStringLength(n, 1);
    NatToStringLength(n, 2);
    assert Pow10(2) == 100;
  }

  /** The year is written with four digits (or at least six before year 0) and both the month
      and the day have two digits: October to December, day 10 to 31. */
  predicate KeysMatch(date: Date) {
    (1000 <= date.year <= 9999 || date.year <= -100000) && date.month >= 9 && date.day >= 10
  }

  /** The save key and the render key of a day are the same string exactly when KeysMatch. */
  lemma KeysAgree(date: CalendarDate)
    ensures IsoKey(date) == RenderKey(date.year, date.month, date.day) <==> KeysMatch(date)
  {
    var y, mo, d := date.year, date.month + 1, date.day;
    YearFields(y);
    SmallFields(mo);
    SmallFields(d);
    var iso := IsoYear(y) + "-" + ZeroPad(NatToString(mo), 2) + "-" + ZeroPad(NatToString(d), 2);
    var render := IntToString(y) + "-" + NatToString(mo) + "-" + NatToString(d);
    assert IsoKey(date) == iso;
    assert RenderKey(y, date.month, d) == render;
    assert |iso| == |IsoYear(y)| + |ZeroPad(NatToString(mo), 2)| + |ZeroPad(NatToString(d), 2)| + 2;
    assert |render| == |IntToString(y)| + |NatToString(mo)| + |NatToString(d)| + 2;
  }

  /** The ISO year field is never shorter than the printed year, and is the same string exactly
      for the years 1000..9999 and those at or below -100000. */
  lemma YearFields(y: int)
    ensures |IsoYear(y)| >= |IntToString(y)|
    ensures |IsoYear(y)| == |IntToString(y)| <==> 1000 <= y <= 9999 || y <= -100000
    ensures 1000 <= y <= 9999 || y <= -100000 ==> IsoYear(y) == IntToString(y)
  {
    var n := if y < 0 then -y else y;
    NatToStringLength(n, 3);
    NatToStringLength(n, 4);
    NatToStringLength(n, 5);
    NatToStringLength(n, 6);
    assert Pow10(3) == 1000 && Pow10(4) == 10000 && Pow10(5) == 100000 && Pow10(6) == 1000000;
  }

  /** A month or day number's padded field is never shorter than its numeral, and is the same
      string exactly from 10 up. */
  lemma SmallFields(v: nat)
    requires v < 100
    ensures |ZeroPad(NatToString(v), 2)| == 2 >= |NatToString(v)|
    ensures |NatToString(v)| == 2 <==> v >= 10
    ensures v >= 10 ==> ZeroPad(NatToString(v), 2) == NatToString(v)
  {
    SmallNumeral(v);
  }
}

/**
 * Calendar dates in the proleptic Gregorian calendar, counted in days from
 * 1970-01-01 (the epoch of a parquet DATE), and their `%Y-%m-%d` rendering: the
 * calendar-date extended format of ISO 8601.
 */
module Dates {
  import opened Wrappers

  datatype CivilDate = CivilDate(year: int, month: int, day: int)

  const Epoch := CivilDate(1970, 1, 1)

  predicate IsLeap(y: int)
  {
    y % 4 == 0 && (y % 100 != 0 || y % 400 == 0)
  }

  function DaysInYear(y: int): int
  {
    if IsLeap(y) then 366 else 365
  }

  function DaysInMonth(y: int, m: int): int
    requires 1 <= m <= 12
  {
    if m == 2 then (if IsLeap(y) then 29 else 28)
    else if m == 4 || m == 6 || m == 9 || m == 11 then 30
    else 31
  }

  predicate ValidDate(d: CivilDate)
  {
    1 <= d.month <= 12 && 1 <= d.day <= DaysInMonth(d.year, d.month)
  }

  /** Days of year `y` before the first of month `m` (month 13 is the next new year). */
  function MonthStart(y: int, m: int): int
    requires 1 <= m <= 13
  {
    var leap := if IsLeap(y) && m > 2 then 1 else 0;
    leap + (
      if m == 1 then 0 else if m == 2 then 31 else if m == 3 then 59 else if m == 4 then 90
      else if m == 5 then 120 else if m == 6 then 151 else if m == 7 then 181 else if m == 8 then 212
      else if m == 9 then 243 else if m == 10 then 273 else if m == 11 then 304 else if m == 12 then 334
      else 365)
  }

  /** A month starts where the one before it ends; the thirteenth "month" starts the next year. */
  lemma MonthStartStep(y: int, m: int)
    requires 1 <= m <= 12
    ensures MonthStart(y, m) + DaysInMonth(y, m) == MonthStart(y, m + 1)
    ensures MonthStart(y, 13) == DaysInYear(y)
  {
  }

  /** Days from 1970-01-01 to the first of January of year `y` (negative before 1970). */
  function YearStart(y: int): int
    decreases if y >= 1970 then y - 1970 else 1970 - y
  {
    if y == 1970 then 0
    else if y > 1970 then YearStart(y - 1) + DaysInYear(y - 1)
    else YearStart(y + 1) - DaysInYear(y)
  }

  lemma YearStartStep(y: int)
    ensures YearStart(y + 1) == YearStart(y) + DaysInYear(y)
  {
  }

  /** Later years start later. */
  lemma {:induction false} YearStartMonotonic(a: int, b: int)
    requires a < b
    ensures YearStart(a + 1) <= YearStart(b)
    decreases b - a
  {
    if a + 1 < b {
      YearStartMonotonic(a, b - 1);
      YearStartStep(b - 1);
    }
  }

  /** The year containing day `n`, searched upwards from year `y`. */
  function YearUp(n: int, y: int): (r: int)
    requires YearStart(y) <= n
    ensures YearStart(r) <= n < YearStart(r + 1)
    decreases n - YearStart(y)
  {
    YearStartStep(y);
    if n < YearStart(y + 1) then y else YearUp(n, y + 1)
  }

  /** The year containing day `n`, searched downwards from year `y`. */
  function YearDown(n: int, y: int): (r: int)
    requires n < YearStart(y + 1)
    ensures YearStart(r) <= n < YearStart(r + 1)
    decreases YearStart(y + 1) - n
  {
    YearStartStep(y);
    YearStartStep(y - 1);
    if YearStart(y) <= n then y else YearDown(n, y - 1)
  }

  function YearOf(n: int): (r: int)
    ensures YearStart(r) <= n < YearStart(r + 1)
  {
    if n >= 0 then YearUp(n, 1970) else YearDown(n, 1969)
  }

  /** The month holding day `doy` (counted from 0) of year `y`. */
  function MonthOf(y: int, doy: int): (m: int)
    requires 0 <= doy < DaysInYear(y)
    ensures 1 <= m <= 12 && MonthStart(y, m) <= doy < MonthStart(y, m) + DaysInMonth(y, m)
  {
    if doy < MonthStart(y, 2) then 1
    else if doy < MonthStart(y, 3) then 2
    else if doy < MonthStart(y, 4) then 3
    else if doy < MonthStart(y, 5) then 4
    else if doy < MonthStart(y, 6) then 5
    else if doy < MonthStart(y, 7) then 6
    else if doy < MonthStart(y, 8) then 7
    else if doy < MonthStart(y, 9) then 8
    else if doy < MonthStart(y, 10) then 9
    else if doy < MonthStart(y, 11) then 10
    else if doy < MonthStart(y, 12) then 11
    else 12
  }

  /** The day count of a date: days from 1970-01-01. */
  function DaysFromCivil(d: CivilDate): int
    requires ValidDate(d)
  {
    YearStart(d.year) + MonthStart(d.year, d.month) + d.day - 1
  }

  /** The date `n` days after 1970-01-01 (before it, for negative `n`). */
  function CivilFromDays(n: int): (d: CivilDate)
    ensures ValidDate(d) && DaysFromCivil(d) == n
  {
    var y := YearOf(n);
    YearStartStep(y);
    var doy := n - YearStart(y);
    var m := MonthOf(y, doy);
    CivilDate(y, m, doy - MonthStart(y, m) + 1)
  }

  /** Day 0 is the epoch. */
  lemma EpochIsDayZero()
    ensures CivilFromDays(0) == Epoch
  {
    assert YearStart(1971) == 365;
    assert YearUp(0, 1970) == 1970;
    assert YearOf(0) == 1970;
    assert MonthStart(1970, 1) == 0 && MonthStart(1970, 2) == 31;
    assert MonthOf(1970, 0) == 1;
  }

  /** Every valid date is reached by its own day count: the two conversions are inverse. */
  lemma CivilDaysRoundTrip(d: CivilDate)
    requires ValidDate(d)
    ensures CivilFromDays(DaysFromCivil(d)) == d
  {
    var n := DaysFromCivil(d);
    var doy := MonthStart(d.year, d.month) + d.day - 1;
    MonthStartStep(d.year, d.month);
    if d.month < 12 {
      MonthStartMonotonic(d.year, d.month + 1, 12);
    }
    MonthStartStep(d.year, 12);
    YearStartStep(d.year);
    YearUnique(YearOf(n), d.year, n);
    MonthUnique(d.year, MonthOf(d.year, doy), d.month, doy);
  }

  /** Years do not overlap: a day lies in one year only. */
  lemma YearUnique(a: int, b: int, n: int)
    requires YearStart(a) <= n < YearStart(a + 1)
    requires YearStart(b) <= n < YearStart(b + 1)
    ensures a == b
  {
    if a < b {
      YearStartMonotonic(a, b);
    } else if b < a {
      YearStartMonotonic(b, a);
    }
  }

  /** Months of a year do not overlap: a day of the year lies in one month only. */
  lemma MonthUnique(y: int, a: int, b: int, doy: int)
    requires 1 <= a <= 12 && 1 <= b <= 12
    requires MonthStart(y, a) <= doy < MonthStart(y, a) + DaysInMonth(y, a)
    requires MonthStart(y, b) <= doy < MonthStart(y, b) + DaysInMonth(y, b)
    ensures a == b
  {
    MonthStartStep(y, a);
    MonthStartStep(y, b);
    if a < b {
      MonthStartMonotonic(y, a + 1, b);
    } else if b < a {
      MonthStartMonotonic(y, b + 1, a);
    }
  }

  lemma MonthStartMonotonic(y: int, a: int, b: int)
    requires 1 <= a <= b <= 12
    ensures MonthStart(y, a) <= MonthStart(y, b)
  {
  }

  // ---------------------------------------------------------------------------
  // `%Y-%m-%d`

  function DigitChar(n: int): char
    requires 0 <= n < 10
  {
    ('0' as int + n) as char
  }

  function DigitValue(c: char): (r: Option<int>)
    ensures r.Some? ==> 0 <= r.value < 10 && DigitChar(r.value) == c
  {
    if '0' <= c <= '9' then Some(c as int - '0' as int) else None
  }

  lemma DigitValueOfDigitChar(n: int)
    requires 0 <= n < 10
    ensures DigitValue(DigitChar(n)) == Some(n)
  {
  }

  /** The decimal digits of `n`, zero-padded on the left to at least `width` characters. */
  function Decimal(n: nat, width: nat): (s: string)
    ensures |s| >= width && |s| >= 1
    decreases n + width
  {
    if n < 10 && width <= 1 then [DigitChar(n)]
    else Decimal(n / 10, if width > 0 then width - 1 else 0) + [DigitChar(n % 10)]
  }

  /**
   * `%Y`: four digits for the years 0 to 9999; any other year is written with its sign
   * and at least four digits.
   */
  function FormatYear(y: int): string
  {
    if 0 <= y <= 9999 then Decimal(y, 4)
    else if y < 0 then "-" + Decimal(-y, 4)
    else "+" + Decimal(y, 4)
  }

  /** `format("%Y-%m-%d")`. */
  function FormatYmd(d: CivilDate): string
    requires ValidDate(d)
  {
    FormatYear(d.year) + "-" + Decimal(d.month, 2) + "-" + Decimal(d.day, 2)
  }

  /** The value of a non-empty string of decimal digits. */
  function DigitsValue(s: string): Option<nat>
    decreases |s|
  {
    if s == [] then None
    else match DigitValue(s[|s| - 1])
      case None => None
      case Some(d) =>
        if |s| == 1 then Some(d)
        else match DigitsValue(s[..|s| - 1])
          case None => None
          case Some(v) => Some(10 * v + d)
  }

  /** Decimal digits read back as the number they were written from. */
  lemma {:induction false} DecimalRoundTrip(n: nat, width: nat)
    ensures DigitsValue(Decimal(n, width)) == Some(n)
    decreases n + width
  {
    if n < 10 && width <= 1 {
      DigitValueOfDigitChar(n);
    } else {
      var w := if width > 0 then width - 1 else 0;
      DecimalRoundTrip(n / 10, w);
      DigitsValueSnoc(Decimal(n / 10, w), n / 10, n % 10);
    }
  }

  /** One more digit at the end multiplies the value by ten and adds the digit. */
  lemma DigitsValueSnoc(p: string, v: nat, digit: nat)
    requires p != [] && DigitsValue(p) == Some(v)
    requires digit < 10
    ensures DigitsValue(p + [DigitChar(digit)]) == Some(10 * v + digit)
  {
    var s := p + [DigitChar(digit)];
    DigitValueOfDigitChar(digit);
    assert s[|s| - 1] == DigitChar(digit);
    assert s[..|s| - 1] == p;
  }

  /** Reads `YYYY-MM-DD` back into a valid date. */
  function ParseYmd(s: string): Option<CivilDate>
  {
    if |s| != 10 || s[4] != '-' || s[7] != '-' then None
    else match (DigitsValue(s[..4]), DigitsValue(s[5..7]), DigitsValue(s[8..]))
      case (Some(y), Some(m), Some(d)) =>
        if ValidDate(CivilDate(y, m, d)) then Some(CivilDate(y, m, d)) else None
      case _ => None
  }

  lemma Decimal4(n: nat)
    requires n <= 9999
    ensures |Decimal(n, 4)| == 4
  {
    assert n / 10 / 10 == n / 100 && n / 100 / 10 == n / 1000;
    assert |Decimal(n / 1000, 1)| == 1;
    assert |Decimal(n / 100, 2)| == |Decimal(n / 1000, 1)| + 1;
    assert |Decimal(n / 10, 3)| == |Decimal(n / 100, 2)| + 1;
    assert |Decimal(n, 4)| == |Decimal(n / 10, 3)| + 1;
  }

  lemma Decimal2(n: nat)
    requires n <= 99
    ensures |Decimal(n, 2)| == 2
  {
    assert |Decimal(n / 10, 1)| == 1;
    assert |Decimal(n, 2)| == |Decimal(n / 10, 1)| + 1;
  }

  /** For the years 0 to 9999 the rendering is ten characters that read back as the same date. */
  lemma FormatYmdRoundTrip(d: CivilDate)
    requires ValidDate(d) && 0 <= d.year <= 9999
    ensures |FormatYmd(d)| == 10
    ensures ParseYmd(FormatYmd(d)) == Some(d)
  {
    Decimal4(d.year);
    Decimal2(d.month);
    Decimal2(d.day);
    var s := FormatYmd(d);
    assert s[..4] == Decimal(d.year, 4);
    assert s[5..7] == Decimal(d.month, 2);
    assert s[8..] == Decimal(d.day, 2);
    DecimalRoundTrip(d.year, 4);
    DecimalRoundTrip(d.month, 2);
    DecimalRoundTrip(d.day, 2);
  }
}

/**
 * The part of JavaScript's `Date` that filing-date normalisation relies on:
 * `new Date(year, monthIndex, day)` followed by `toISOString().slice(0, 10)`,
 * with the local time zone taken to be UTC. Out-of-range months and days roll
 * over into neighbouring months and years, and years 0 to 99 mean 1900 to 1999,
 * as section 21.4 of ECMA-262 prescribes.
 */
module JsDate {
  import opened Strings

  /** A calendar date of the proleptic Gregorian calendar; `month` counts from 1. */
  datatype Date = Date(year: int, month: int, day: int)

  predicate IsLeapYear(y: int) {
    (y % 4 == 0 && y % 100 != 0) || y % 400 == 0
  }

  function YearLength(y: int): int {
    if IsLeapYear(y) then 366 else 365
  }

  function DaysInMonth(y: int, m: int): (n: int)
    requires 1 <= m <= 12
    ensures 28 <= n <= 31
  {
    if m == 2 then (if IsLeapYear(y) then 29 else 28)
    else if m == 4 || m == 6 || m == 9 || m == 11 then 30
    else 31
  }

  predicate Valid(d: Date) {
    1 <= d.month <= 12 && 1 <= d.day <= DaysInMonth(d.year, d.month)
  }

  /** Days from 1970-01-01 to the first day of year `y` (ECMA-262 `DayFromYear`). */
  function YearStart(y: int): int
    decreases if y >= 1970 then y - 1970 else 1970 - y
  {
    if y == 1970 then 0
    else if y > 1970 then YearStart(y - 1) + YearLength(y - 1)
    else YearStart(y + 1) - YearLength(y)
  }

  /** Days in the months of year `y` before month `m`. */
  function DaysBeforeMonth(y: int, m: int): (n: int)
    requires 1 <= m <= 12
    ensures 28 * (m - 1) <= n <= 31 * (m - 1)
  {
    if m == 1 then 0 else DaysBeforeMonth(y, m - 1) + DaysInMonth(y, m - 1)
  }

  /**
   * The day number (days since 1970-01-01) of day `d` of month `m` of year `y`;
   * `d` may lie outside the month, which is how `MakeDay` counts.
   */
  function DayNumber(y: int, m: int, d: int): int
    requires 1 <= m <= 12
  {
    YearStart(y) + DaysBeforeMonth(y, m) + d - 1
  }

  lemma YearStartStep(y: int)
    ensures YearStart(y + 1) == YearStart(y) + YearLength(y)
  {
  }

  lemma YearHasAllMonths(y: int)
    ensures DaysBeforeMonth(y, 12) + DaysInMonth(y, 12) == YearLength(y)
  {
    var leap := if IsLeapYear(y) then 1 else 0;
    assert DaysBeforeMonth(y, 2) == 31;
    assert DaysBeforeMonth(y, 3) == 59 + leap;
    assert DaysBeforeMonth(y, 4) == 90 + leap;
    assert DaysBeforeMonth(y, 5) == 120 + leap;
    assert DaysBeforeMonth(y, 6) == 151 + leap;
    assert DaysBeforeMonth(y, 7) == 181 + leap;
    assert DaysBeforeMonth(y, 8) == 212 + leap;
    assert DaysBeforeMonth(y, 9) == 243 + leap;
    assert DaysBeforeMonth(y, 10) == 273 + leap;
    assert DaysBeforeMonth(y, 11) == 304 + leap;
    assert DaysBeforeMonth(y, 12) == 334 + leap;
  }

  /** The month before `m` of year `y`, as (year, month). */
  function PrevMonth(y: int, m: int): (int, int)
    requires 1 <= m <= 12
  {
    if m == 1 then (y - 1, 12) else (y, m - 1)
  }

  /** The month after `m` of year `y`, as (year, month). */
  function NextMonth(y: int, m: int): (int, int)
    requires 1 <= m <= 12
  {
    if m == 12 then (y + 1, 1) else (y, m + 1)
  }

  /** Counting a day from the previous month's start names the same day. */
  lemma PrevMonthDayNumber(y: int, m: int, d: int)
    requires 1 <= m <= 12 && 1 <= PrevMonth(y, m).1 <= 12
    ensures var (py, pm) := PrevMonth(y, m);
      DayNumber(py, pm, d + DaysInMonth(py, pm)) == DayNumber(y, m, d)
  {
    if m == 1 {
      YearStartStep(y - 1);
      YearHasAllMonths(y - 1);
    }
  }

  /** Counting a day from the next month's start names the same day. */
  lemma NextMonthDayNumber(y: int, m: int, d: int)
    requires 1 <= m <= 12 && 1 <= NextMonth(y, m).1 <= 12
    ensures var (ny, nm) := NextMonth(y, m);
      DayNumber(ny, nm, d - DaysInMonth(y, m)) == DayNumber(y, m, d)
  {
    if m == 12 {
      YearStartStep(y);
      YearHasAllMonths(y);
    }
  }

  /**
   * Rolls day `d` of month `m` into a valid date: day 0 and below fall into the
   * previous month, days past the month's end into the following ones.
   */
  function Normalize(y: int, m: int, d: int): (r: Date)
    requires 1 <= m <= 12
    ensures Valid(r)
    ensures DayNumber(r.year, r.month, r.day) == DayNumber(y, m, d)
    ensures 1 <= d <= DaysInMonth(y, m) ==> r == Date(y, m, d)
    decreases (if d < 1 then 1 else 0), (if d < 1 then -d else d)
  {
    if d < 1 then
      var (py, pm) := PrevMonth(y, m);
      PrevMonthDayNumber(y, m, d);
      Normalize(py, pm, d + DaysInMonth(py, pm))
    else if d > DaysInMonth(y, m) then
      var (ny, nm) := NextMonth(y, m);
      NextMonthDayNumber(y, m, d);
      Normalize(ny, nm, d - DaysInMonth(y, m))
    else
      Date(y, m, d)
  }

  /** The year the `Date` constructor uses: 0 to 99 are read as 1900 to 1999. */
  function MakeFullYear(y: int): int {
    if 0 <= y <= 99 then 1900 + y else y
  }

  /**
   * `new Date(year, monthIndex, day)` in a UTC time zone: the valid date whose
   * day number is `MakeDay(year, monthIndex, day)` of ECMA-262, in which the
   * month index carries into the year by floor division.
   */
  function Construct(year: int, monthIndex: int, day: int): (r: Date)
    ensures Valid(r)
    ensures DayNumber(r.year, r.month, r.day)
         == DayNumber(MakeFullYear(year) + monthIndex / 12, monthIndex % 12 + 1, 1) + day - 1
  {
    Normalize(MakeFullYear(year) + monthIndex / 12, monthIndex % 12 + 1, day)
  }

  /** A date already in range is constructed unchanged. */
  lemma ConstructInRange(year: int, monthIndex: int, day: int)
    requires 0 <= monthIndex <= 11
    requires Valid(Date(MakeFullYear(year), monthIndex + 1, day))
    ensures Construct(year, monthIndex, day) == Date(MakeFullYear(year), monthIndex + 1, day)
  {
    assert monthIndex / 12 == 0 && monthIndex % 12 == monthIndex;
  }

  lemma {:induction false} YearStartMonotonic(a: int, b: int)
    requires a < b
    ensures YearStart(a) + YearLength(a) <= YearStart(b)
    decreases b - a
  {
    YearStartStep(a);
    if a + 1 < b {
      YearStartMonotonic(a + 1, b);
    }
  }

  lemma {:induction false} DaysBeforeMonthMonotonic(y: int, a: int, b: int)
    requires 1 <= a < b <= 12
    ensures DaysBeforeMonth(y, a) + DaysInMonth(y, a) <= DaysBeforeMonth(y, b)
    decreases b - a
  {
    if a + 1 < b {
      DaysBeforeMonthMonotonic(y, a + 1, b);
    }
  }

  lemma WithinYear(d: Date)
    requires Valid(d)
    ensures YearStart(d.year) <= DayNumber(d.year, d.month, d.day) < YearStart(d.year) + YearLength(d.year)
  {
    if d.month < 12 {
      DaysBeforeMonthMonotonic(d.year, d.month, 12);
    }
    YearHasAllMonths(d.year);
  }

  /** Distinct valid dates have distinct day numbers, so a day number names one date. */
  lemma DayNumberInjective(a: Date, b: Date)
    requires Valid(a) && Valid(b)
    requires DayNumber(a.year, a.month, a.day) == DayNumber(b.year, b.month, b.day)
    ensures a == b
  {
    WithinYear(a);
    WithinYear(b);
    if a.year < b.year {
      YearStartMonotonic(a.year, b.year);
    } else if b.year < a.year {
      YearStartMonotonic(b.year, a.year);
    } else if a.month < b.month {
      DaysBeforeMonthMonotonic(a.year, a.month, b.month);
    } else if b.month < a.month {
      DaysBeforeMonthMonotonic(a.year, b.month, a.month);
    }
  }

  /**
   * `toISOString().slice(0, 10)`: `YYYY-MM-DD` for years 0 to 9999; other years
   * use the expanded form, a sign and six digits, so the slice ends `-MM`.
   */
  function IsoDatePrefix(d: Date): (r: string)
    requires Valid(d)
    ensures |r| == 10
  {
    if 0 <= d.year <= 9999 then
      FixedDigits(d.year, 4) + "-" + FixedDigits(d.month, 2) + "-" + FixedDigits(d.day, 2)
    else
      (if d.year < 0 then "-" else "+") + FixedDigits(if d.year < 0 then -d.year else d.year, 6)
      + "-" + FixedDigits(d.month, 2)
  }

  /** A valid date with a four-digit year reads back from its ISO text unchanged. */
  lemma IsoDateReadsBack(d: Date)
    requires Valid(d) && 0 <= d.year <= 9999
    ensures var r := IsoDatePrefix(d);
      && r[4] == '-' && r[7] == '-'
      && IsAllDigits(r[..4]) && IsAllDigits(r[5..7]) && IsAllDigits(r[8..])
      && Date(DigitsValue(r[..4]), DigitsValue(r[5..7]), DigitsValue(r[8..])) == d
  {
    var y, m, dd := FixedDigits(d.year, 4), FixedDigits(d.month, 2), FixedDigits(d.day, 2);
    var r := IsoDatePrefix(d);
    assert r == y + "-" + m + "-" + dd;
    assert r[..4] == y && r[5..7] == m && r[8..] == dd;
    assert Pow10(2) == 100 && Pow10(4) == 10000;
    FixedDigitsValue(d.year, 4, Pow10(4));
    FixedDigitsValue(d.month, 2, Pow10(2));
    FixedDigitsValue(d.day, 2, Pow10(2));
  }
}

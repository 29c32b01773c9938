/** Proleptic Gregorian calendar arithmetic, standing in for the JavaScript `Date` calls
    of the year view. */
module Gregorian {

  /** Divisible by 4, and not by 100 unless also by 400. */
  predicate IsLeap(y: int) {
    y % 4 == 0 && (y % 100 != 0 || y % 400 == 0)
  }

  /** Length of month `m` (1 = January) of year `y`. */
  function DaysInMonth(y: int, m: int): (n: int)
    requires 1 <= m <= 12
    ensures 28 <= n <= 31
    ensures m == 2 ==> (n == 29 <==> IsLeap(y))
  {
    if m == 2 then (if IsLeap(y) then 29 else 28)
    else if m == 4 || m == 6 || m == 9 || m == 11 then 30
    else 31
  }

  /** Days from 1 March of year 0 to 1 March of year `y`; `/` is floor division, so this
      holds for negative years as well. */
  function MarchYearStart(y: int): int
  {
    365 * y + y / 4 - y / 100 + y / 400
  }

  /** Days from 1 March to the first of month `m`, within a year that runs March to February. */
  function DaysFromMarch(m: int): int
    requires 1 <= m <= 12
  {
    match m
    case 3 => 0
    case 4 => 31
    case 5 => 61
    case 6 => 92
    case 7 => 122
    case 8 => 153
    case 9 => 184
    case 10 => 214
    case 11 => 245
    case 12 => 275
    case 1 => 306
    case _ => 337
  }

  /** Days from 1 March of year 0 to `y-m-d`. January and February count in the previous
      March-based year, so the leap day ends a year. */
  function DayNumber(y: int, m: int, d: int): int
    requires 1 <= m <= 12
  {
    MarchYearStart(if m <= 2 then y - 1 else y) + DaysFromMarch(m) + d - 1
  }

  /** Day of the week of `y-m-d`, 0 = Sunday .. 6 = Saturday (1 March of year 0 was a Wednesday). */
  function Weekday(y: int, m: int, d: int): (w: int)
    requires 1 <= m <= 12
    ensures 0 <= w <= 6
  {
    (DayNumber(y, m, d) + 3) % 7
  }

  /** The year `new Date(year, month, day)` actually uses: two-digit years mean 19xx. */
  function JsYear(year: int): int
  {
    if 0 <= year <= 99 then 1900 + year else year
  }

  /** A March-based year is 366 days long exactly when its February is a leap February. */
  lemma MarchYearLength(y: int)
    ensures MarchYearStart(y) - MarchYearStart(y - 1) == (if IsLeap(y) then 366 else 365)
  {
    FloorStep(y, 4);
    FloorStep(y, 100);
    FloorStep(y, 400);
    DivisibilityChain(y);
  }

  /** Multiples of 400 are multiples of 100, and those are multiples of 4. */
  lemma DivisibilityChain(y: int)
    ensures y % 400 == 0 ==> y % 100 == 0
    ensures y % 100 == 0 ==> y % 4 == 0
  {
    MultipleMod(4, y / 400, 100);
    MultipleMod(25, y / 100, 4);
  }

  /** `c * (a * k)` is a multiple of `c`. */
  lemma MultipleMod(a: int, k: int, c: int)
    requires c == 4 || c == 100
    ensures (c * (a * k)) % c == 0
  {
  }

  /** Stepping back one year crosses a multiple of `k` exactly when `y` is one. */
  lemma FloorStep(y: int, k: int)
    requires k == 4 || k == 100 || k == 400
    ensures (y - 1) / k == (if y % k == 0 then y / k - 1 else y / k)
  {
    if k == 4 {
      assert y == 4 * (y / 4) + y % 4;
    } else if k == 100 {
      assert y == 100 * (y / 100) + y % 100;
    } else {
      assert y == 400 * (y / 400) + y % 400;
    }
  }

  /** The first of the following month is exactly `DaysInMonth` days after the first of this one. */
  lemma NextMonthStart(y: int, m: int)
    requires 1 <= m <= 12
    ensures m < 12 ==> DayNumber(y, m + 1, 1) == DayNumber(y, m, 1) + DaysInMonth(y, m)
    ensures m == 12 ==> DayNumber(y + 1, 1, 1) == DayNumber(y, 12, 1) + DaysInMonth(y, 12)
  {
    if m == 2 {
      MarchYearLength(y);
    }
  }

  /** Day 0 of the next month, as `new Date(y, m, 0)` reads it, is the last day of this month,
      so `getDate()` on it yields `DaysInMonth`. */
  lemma LastDayPrecedesNextMonth(y: int, m: int)
    requires 1 <= m <= 12
    ensures m < 12 ==> DayNumber(y, m, DaysInMonth(y, m)) + 1 == DayNumber(y, m + 1, 1)
    ensures m == 12 ==> DayNumber(y, 12, 31) + 1 == DayNumber(y + 1, 1, 1)
  {
    NextMonthStart(y, m);
  }

  /** Consecutive months line up: the first weekday of a month follows from the previous one. */
  lemma NextMonthWeekday(y: int, m: int)
    requires 1 <= m < 12
    ensures Weekday(y, m + 1, 1) == (Weekday(y, m, 1) + DaysInMonth(y, m)) % 7
  {
    NextMonthStart(y, m);
    ShiftWeek(DayNumber(y, m, 1) + 3, DaysInMonth(y, m));
  }

  /** A year starts one weekday later than the previous one, two after a leap year. */
  lemma NextYearWeekday(y: int)
    ensures Weekday(y + 1, 1, 1) == (Weekday(y, 1, 1) + (if IsLeap(y) then 366 else 365)) % 7
  {
    var n := if IsLeap(y) then 366 else 365;
    MarchYearLength(y);
    assert DayNumber(y + 1, 1, 1) == DayNumber(y, 1, 1) + n;
    ShiftWeek(DayNumber(y, 1, 1) + 3, n);
  }

  /** Reducing the first addend modulo 7 does not change the weekday of a sum. */
  lemma ShiftWeek(a: int, n: int)
    ensures (a % 7 + n) % 7 == (a + n) % 7
  {
    var q := a / 7;
    assert a == 7 * q + a % 7;
    assert a + n == 7 * q + (a % 7 + n);
  }

  /** Leap and common Februaries, and months starting on Sunday and on Saturday. */
  lemma CalendarExamples()
    ensures DaysInMonth(2024, 2) == 29 && DaysInMonth(2023, 2) == 28
    ensures DaysInMonth(2000, 2) == 29 && DaysInMonth(1900, 2) == 28
    ensures Weekday(2023, 1, 1) == 0 && Weekday(2022, 1, 1) == 6
    ensures Weekday(2024, 1, 1) == 1
  {
  }
}

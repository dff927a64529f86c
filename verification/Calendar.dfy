/** The proleptic Gregorian calendar that Python's `datetime` implements, over unbounded years.

    A day is an integer counted from 1 January of year 1 (day 0, a Monday); a wall-clock time is an
    integer number of seconds counted from the first second of that day. */
module Calendar {
  // ---- years ---------------------------------------------------------------------------------

  predicate IsLeap(y: int) {
    y % 4 == 0 && (y % 100 != 0 || y % 400 == 0)
  }

  function DaysInYear(y: int): int {
    if IsLeap(y) then 366 else 365
  }

  /** Days from day 0 to 1 January of year `y`. */
  function DaysBeforeYear(y: int): int {
    365 * (y - 1) + (y - 1) / 4 - (y - 1) / 100 + (y - 1) / 400
  }

  lemma DivisionStep4(y: int)
    ensures y / 4 == (y - 1) / 4 + (if y % 4 == 0 then 1 else 0)
  {
  }

  lemma DivisionStep100(y: int)
    ensures y / 100 == (y - 1) / 100 + (if y % 100 == 0 then 1 else 0)
  {
  }

  lemma DivisionStep400(y: int)
    ensures y / 400 == (y - 1) / 400 + (if y % 400 == 0 then 1 else 0)
  {
  }

  lemma YearStep(y: int)
    ensures DaysBeforeYear(y + 1) == DaysBeforeYear(y) + DaysInYear(y)
  {
    DivisionStep4(y);
    DivisionStep100(y);
    DivisionStep400(y);
    assert y % 400 == 0 ==> y % 100 == 0;
    assert y % 100 == 0 ==> y % 4 == 0;
  }

  lemma YearsOrdered(y: int, y': int)
    requires y < y'
    ensures DaysBeforeYear(y) + DaysInYear(y) <= DaysBeforeYear(y')
  {
    YearStep(y);
  }

  lemma FourCenturies(y: int, k: int)
    ensures DaysBeforeYear(y + 400 * k) == DaysBeforeYear(y) + 146097 * k
  {
    assert (y - 1 + 400 * k) / 4 == (y - 1) / 4 + 100 * k;
    assert (y - 1 + 400 * k) / 100 == (y - 1) / 100 + 4 * k;
    assert (y - 1 + 400 * k) / 400 == (y - 1) / 400 + k;
  }

  lemma Shift4(y: int, j: int)
    ensures (y + 4 * j) % 4 == y % 4
  {
  }

  lemma Shift100(y: int, j: int)
    ensures (y + 100 * j) % 100 == y % 100
  {
  }

  lemma Shift400(y: int, j: int)
    ensures (y + 400 * j) % 400 == y % 400
  {
  }

  lemma SameLeap(y: int, k: int)
    ensures IsLeap(y + 400 * k) == IsLeap(y)
  {
    Shift4(y, 100 * k);
    Shift100(y, 4 * k);
    Shift400(y, k);
  }

  /** The year that day `r` falls in, walking up from a year known not to be too late. */
  function YearFrom(y: int, r: int): (found: int)
    requires DaysBeforeYear(y) <= r
    ensures DaysBeforeYear(found) <= r < DaysBeforeYear(found) + DaysInYear(found)
    decreases r - DaysBeforeYear(y)
  {
    if r < DaysBeforeYear(y) + DaysInYear(y) then y else (YearStep(y); YearFrom(y + 1, r))
  }

  /** The year of day `n`: reduce by whole 400-year cycles, then walk. */
  function YearOfDay(n: int): (y: int)
    ensures DaysBeforeYear(y) <= n < DaysBeforeYear(y) + DaysInYear(y)
  {
    var y := YearFrom(1, n % 146097);
    FourCenturies(y, n / 146097);
    SameLeap(y, n / 146097);
    y + 400 * (n / 146097)
  }

  lemma YearIsUnique(n: int, y: int)
    requires DaysBeforeYear(y) <= n < DaysBeforeYear(y) + DaysInYear(y)
    ensures YearOfDay(n) == y
  {
    var y' := YearOfDay(n);
    if y < y' { YearsOrdered(y, y'); }
    if y' < y { YearsOrdered(y', y); }
  }

  // ---- months --------------------------------------------------------------------------------

  function DaysInMonth(y: int, m: int): int {
    if m == 2 then (if IsLeap(y) then 29 else 28)
    else if m == 4 || m == 6 || m == 9 || m == 11 then 30
    else 31
  }

  /** Days from 1 January to the first of month `m`; month 13 stands for the next 1 January. */
  function DaysBeforeMonth(y: int, m: int): int
    requires 1 <= m <= 13
  {
    if m == 1 then 0 else DaysBeforeMonth(y, m - 1) + DaysInMonth(y, m - 1)
  }

  lemma MonthTable(y: int)
    ensures DaysBeforeMonth(y, 1) == 0
    ensures DaysBeforeMonth(y, 2) == 31
    ensures DaysBeforeMonth(y, 3) == DaysInYear(y) - 306
    ensures DaysBeforeMonth(y, 4) == DaysInYear(y) - 275
    ensures DaysBeforeMonth(y, 5) == DaysInYear(y) - 245
    ensures DaysBeforeMonth(y, 6) == DaysInYear(y) - 214
    ensures DaysBeforeMonth(y, 7) == DaysInYear(y) - 184
    ensures DaysBeforeMonth(y, 8) == DaysInYear(y) - 153
    ensures DaysBeforeMonth(y, 9) == DaysInYear(y) - 122
    ensures DaysBeforeMonth(y, 10) == DaysInYear(y) - 92
    ensures DaysBeforeMonth(y, 11) == DaysInYear(y) - 61
    ensures DaysBeforeMonth(y, 12) == DaysInYear(y) - 31
    ensures DaysBeforeMonth(y, 13) == DaysInYear(y)
  {
    assert DaysBeforeMonth(y, 2) == 31;
    assert DaysBeforeMonth(y, 3) == DaysInYear(y) - 306;
    assert DaysBeforeMonth(y, 4) == DaysInYear(y) - 275;
    assert DaysBeforeMonth(y, 5) == DaysInYear(y) - 245;
    assert DaysBeforeMonth(y, 6) == DaysInYear(y) - 214;
    assert DaysBeforeMonth(y, 7) == DaysInYear(y) - 184;
    assert DaysBeforeMonth(y, 8) == DaysInYear(y) - 153;
    assert DaysBeforeMonth(y, 9) == DaysInYear(y) - 122;
    assert DaysBeforeMonth(y, 10) == DaysInYear(y) - 92;
    assert DaysBeforeMonth(y, 11) == DaysInYear(y) - 61;
    assert DaysBeforeMonth(y, 12) == DaysInYear(y) - 31;
  }

  lemma MonthsOrdered(y: int, m: int, m': int)
    requires 1 <= m < m' <= 13
    ensures DaysBeforeMonth(y, m) + DaysInMonth(y, m) <= DaysBeforeMonth(y, m')
    decreases m'
  {
    if m + 1 == m' {
    } else {
      MonthsOrdered(y, m, m' - 1);
    }
  }

  /** The month that day-of-year `r` falls in, walking up from a month known not to be too late. */
  function MonthFrom(y: int, m: int, r: int): (found: int)
    requires 1 <= m <= 12 && DaysBeforeMonth(y, m) <= r < DaysInYear(y)
    ensures m <= found <= 12
    ensures DaysBeforeMonth(y, found) <= r < DaysBeforeMonth(y, found) + DaysInMonth(y, found)
    decreases 12 - m
  {
    if r < DaysBeforeMonth(y, m) + DaysInMonth(y, m) then m
    else (MonthTable(y); MonthFrom(y, m + 1, r))
  }

  function MonthOfDay(n: int): (m: int)
    ensures 1 <= m <= 12
    ensures var r := n - DaysBeforeYear(YearOfDay(n));
            DaysBeforeMonth(YearOfDay(n), m) <= r < DaysBeforeMonth(YearOfDay(n), m) + DaysInMonth(YearOfDay(n), m)
  {
    MonthFrom(YearOfDay(n), 1, n - DaysBeforeYear(YearOfDay(n)))
  }

  function DayOfDay(n: int): (d: int)
    ensures 1 <= d <= DaysInMonth(YearOfDay(n), MonthOfDay(n))
    ensures n == DayNumber(YearOfDay(n), MonthOfDay(n), d)
  {
    n - DaysBeforeYear(YearOfDay(n)) - DaysBeforeMonth(YearOfDay(n), MonthOfDay(n)) + 1
  }

  predicate ValidDate(y: int, m: int, d: int) {
    1 <= m <= 12 && 1 <= d <= DaysInMonth(y, m)
  }

  /** The day carrying the date `y`-`m`-`d`. */
  function DayNumber(y: int, m: int, d: int): int
    requires 1 <= m <= 12
  {
    DaysBeforeYear(y) + DaysBeforeMonth(y, m) + d - 1
  }

  /** Every valid date names exactly one day: decoding a day undoes encoding its date. */
  lemma DateRoundTrip(y: int, m: int, d: int)
    requires ValidDate(y, m, d)
    ensures YearOfDay(DayNumber(y, m, d)) == y
    ensures MonthOfDay(DayNumber(y, m, d)) == m
    ensures DayOfDay(DayNumber(y, m, d)) == d
  {
    var n := DayNumber(y, m, d);
    MonthTable(y);
    MonthsOrdered(y, m, 13);
    if m > 1 { MonthsOrdered(y, 1, m); }
    YearIsUnique(n, y);
    var m' := MonthOfDay(n);
    if m < m' { MonthsOrdered(y, m, m'); }
    if m' < m { MonthsOrdered(y, m', m); }
  }

  /** The day after the last of a month is the first of the next one. */
  function FirstDayOfNextMonth(n: int): int {
    if MonthOfDay(n) == 12 then DayNumber(YearOfDay(n) + 1, 1, 1)
    else DayNumber(YearOfDay(n), MonthOfDay(n) + 1, 1)
  }

  lemma FirstDayOfNextMonthFollows(n: int)
    ensures FirstDayOfNextMonth(n) == n - DayOfDay(n) + 1 + DaysInMonth(YearOfDay(n), MonthOfDay(n))
  {
    var y, m := YearOfDay(n), MonthOfDay(n);
    YearStep(y);
    MonthTable(y);
  }

  /** Days before the first of next month share this day's month and year. */
  lemma SameMonthUntilNext(n: int, k: int)
    requires n <= k < FirstDayOfNextMonth(n)
    ensures YearOfDay(k) == YearOfDay(n) && MonthOfDay(k) == MonthOfDay(n)
    ensures DayOfDay(k) == DayOfDay(n) + (k - n)
  {
    hide YearOfDay, MonthOfDay, DayOfDay, DaysBeforeYear, DaysBeforeMonth, FirstDayOfNextMonth;
    FirstDayOfNextMonthFollows(n);
    DateRoundTrip(YearOfDay(n), MonthOfDay(n), DayOfDay(n) + (k - n));
  }

  // ---- weekdays ------------------------------------------------------------------------------

  /** Python's weekday: Monday is 0. */
  function Weekday(n: int): int { n % 7 }

  // ---- the wall clock ------------------------------------------------------------------------

  function DayOf(w: int): int { w / 86400 }
  function Hour(w: int): int { (w % 86400) / 3600 }
  function Minute(w: int): int { (w % 3600) / 60 }
  function Second(w: int): int { w % 60 }
  function Year(w: int): int { YearOfDay(DayOf(w)) }
  function Month(w: int): int { MonthOfDay(DayOf(w)) }
  function Dom(w: int): int { DayOfDay(DayOf(w)) }

  function WallTime(day: int, h: int, m: int, s: int): int {
    86400 * day + 3600 * h + 60 * m + s
  }

  lemma HourInDay(w: int)
    ensures w % 3600 == (w % 86400) % 3600
    ensures w % 86400 == 3600 * Hour(w) + w % 3600 && 0 <= Hour(w) < 24
  {
    assert w == 3600 * (24 * (w / 86400)) + w % 86400;
  }

  lemma MinuteInHour(w: int)
    ensures w % 60 == (w % 3600) % 60
    ensures w % 3600 == 60 * Minute(w) + w % 60 && 0 <= Minute(w) < 60
  {
    assert w == 60 * (60 * (w / 3600)) + w % 3600;
  }

  /** A wall time is made of its day, hour, minute and second. */
  lemma WallTimeParts(w: int)
    ensures w == WallTime(DayOf(w), Hour(w), Minute(w), Second(w))
    ensures 0 <= Hour(w) < 24 && 0 <= Minute(w) < 60 && 0 <= Second(w) < 60
  {
    hide Hour, Minute;
    HourInDay(w);
    MinuteInHour(w);
  }

  /** Day, hour, minute and second are read back from the wall time they make. */
  lemma WallTimeRoundTrip(day: int, h: int, m: int, s: int)
    requires 0 <= h < 24 && 0 <= m < 60 && 0 <= s < 60
    ensures DayOf(WallTime(day, h, m, s)) == day
    ensures Hour(WallTime(day, h, m, s)) == h
    ensures Minute(WallTime(day, h, m, s)) == m
    ensures Second(WallTime(day, h, m, s)) == s
  {
    var w := WallTime(day, h, m, s);
    assert w % 86400 == 3600 * h + 60 * m + s;
    assert w % 3600 == 60 * m + s by { assert w == 3600 * (24 * day + h) + 60 * m + s; }
    assert w % 60 == s by { assert w == 60 * (1440 * day + 60 * h + m) + s; }
  }

  lemma WithinHour(day: int, h: int, past: int)
    requires 0 <= h < 24 && 0 <= past < 3600
    ensures DayOf(86400 * day + 3600 * h + past) == day
    ensures Hour(86400 * day + 3600 * h + past) == h
  {
    var v := 86400 * day + 3600 * h + past;
    assert v % 86400 == 3600 * h + past;
  }

  /** `w.replace(second=0)`. */
  function FloorMinute(w: int): (f: int)
    ensures f <= w < f + 60 && f % 60 == 0
  {
    w - w % 60
  }
}

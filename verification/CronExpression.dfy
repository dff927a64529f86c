/** A parsed field expression and the day, month and time tests it applies to a wall-clock time. */
module CronExpression {
  import opened Calendar
  import opened Wrappers

  /** The recurring kind of expression, with every plain field expanded to a set of values. */
  datatype Fields = Fields(
    seconds: set<int>,
    minutes: set<int>,
    hours: set<int>,
    daysOfMonth: set<int>,
    months: set<int>,
    daysOfWeek: set<int>,
    domRestricted: bool,
    dowRestricted: bool,
    lastDayOfMonth: bool,
    lastDomOffset: Option<int>,
    lastDow: Option<int>,
    nthDow: Option<(int, int)>,
    nearestWeekday: Option<int>)

  /** A day test either decides or, given `nW` with n below 1, raises. */
  datatype Verdict = Match | NoMatch | Raises

  /** What parsing guarantees of the plain fields. */
  ghost predicate InRange(e: Fields) {
    && (forall v :: v in e.seconds ==> 0 <= v < 60)
    && (forall v :: v in e.minutes ==> 0 <= v < 60)
    && (forall v :: v in e.hours ==> 0 <= v < 24)
  }

  /** The `nW` form names a day that months can have; parsing does not check this. */
  predicate NearestInRange(e: Fields) {
    e.nearestWeekday.Some? ==> e.nearestWeekday.value >= 1
  }

  /** The expression pins specific hours rather than allowing all 24. */
  predicate HourAnchored(e: Fields) { |e.hours| < 24 }

  // ---- date helpers --------------------------------------------------------------------------

  /** Monday-based weekdays turned Sunday-based. */
  function CronDow(n: int): int { (Weekday(n) + 1) % 7 }

  function LastDayOfMonth(y: int, m: int): int
    requires 1 <= m <= 12
  {
    if m == 12 then 31 else DayOfDay(DayNumber(y, m + 1, 1) - 1)
  }

  /** The weekday (Monday to Friday) nearest `day`, without crossing months. */
  function NearestWeekdayTo(y: int, m: int, day: int): int
    requires ValidDate(y, m, day)
  {
    var weekday := Weekday(DayNumber(y, m, day));
    if weekday < 5 then day
    else if weekday == 5 then (if day > 1 then day - 1 else day + 2)
    else if day < LastDayOfMonth(y, m) then day + 1 else day - 2
  }

  lemma LastDayIsMonthLength(y: int, m: int)
    requires 1 <= m <= 12
    ensures LastDayOfMonth(y, m) == DaysInMonth(y, m)
  {
    if m < 12 {
      var last := DayNumber(y, m, DaysInMonth(y, m));
      assert DayNumber(y, m + 1, 1) - 1 == last;
      DateRoundTrip(y, m, DaysInMonth(y, m));
    }
  }

  // ---- day tests -----------------------------------------------------------------------------

  function DomMatches(e: Fields, n: int): Verdict {
    var y, m, d := YearOfDay(n), MonthOfDay(n), DayOfDay(n);
    if d in e.daysOfMonth then Match
    else
      var last := LastDayOfMonth(y, m);
      if e.lastDayOfMonth && d == last then Match
      else if e.lastDomOffset.Some? && d == last - e.lastDomOffset.value then Match
      else if e.nearestWeekday.Some? then
        var target := if e.nearestWeekday.value < last then e.nearestWeekday.value else last;
        LastDayIsMonthLength(y, m);
        if target < 1 then Raises
        else if d == NearestWeekdayTo(y, m, target) then Match
        else NoMatch
      else NoMatch
  }

  predicate DowMatches(e: Fields, n: int) {
    var y, m, d, dow := YearOfDay(n), MonthOfDay(n), DayOfDay(n), CronDow(n);
    || (e.nthDow.Some? && dow == e.nthDow.value.0 && (d - 1) / 7 + 1 == e.nthDow.value.1)
    || (e.lastDow.Some? && dow == e.lastDow.value && d + 7 > LastDayOfMonth(y, m))
    || dow in e.daysOfWeek
  }

  /** The day-of-month / day-of-week OR rule. */
  function DayMatches(e: Fields, n: int): Verdict {
    if e.domRestricted && e.dowRestricted then
      var dom := DomMatches(e, n);
      if dom == NoMatch then (if DowMatches(e, n) then Match else NoMatch) else dom
    else if e.domRestricted then DomMatches(e, n)
    else if e.dowRestricted then (if DowMatches(e, n) then Match else NoMatch)
    else Match
  }

  // ---- wall-clock tests ----------------------------------------------------------------------

  /** The date part of the match. */
  function DateMatches(e: Fields, w: int): Verdict {
    if Month(w) in e.months then DayMatches(e, DayOf(w)) else NoMatch
  }

  predicate TimeMatches(e: Fields, w: int) {
    Hour(w) in e.hours && Minute(w) in e.minutes && Second(w) in e.seconds
  }

  predicate Matches(e: Fields, w: int) {
    DateMatches(e, w) == Match && TimeMatches(e, w)
  }

  lemma NothingRaises(e: Fields, n: int)
    requires NearestInRange(e)
    ensures DayMatches(e, n) != Raises
  {
    LastDayIsMonthLength(YearOfDay(n), MonthOfDay(n));
  }

  /** A day test raises exactly when the `nW` form is consulted with n below 1: day-of-month is
      restricted and no earlier form of it accepted the day. */
  lemma RaisesExactlyWhen(e: Fields, n: int)
    ensures DayMatches(e, n) == Raises <==>
      && e.domRestricted && e.nearestWeekday.Some? && e.nearestWeekday.value < 1
      && DayOfDay(n) !in e.daysOfMonth
      && !(e.lastDayOfMonth && DayOfDay(n) == DaysInMonth(YearOfDay(n), MonthOfDay(n)))
      && !(e.lastDomOffset.Some? && DayOfDay(n) == DaysInMonth(YearOfDay(n), MonthOfDay(n)) - e.lastDomOffset.value)
  {
    LastDayIsMonthLength(YearOfDay(n), MonthOfDay(n));
  }
}

/** The coarse-to-fine walk over wall-clock time, proved equal to a scan of every second. */
module CronWalk {
  import opened Calendar
  import opened Wrappers
  import opened Zones
  import opened CronExpression

  /** What evaluating an expression gives: an exception, `None`, or a fire. */
  datatype Outcome = Raised | NoFire | Fires(when: Aware)

  // ---- where the walk starts and ends --------------------------------------------------------

  predicate HasSeconds(e: Fields) {
    e.seconds != {0} || |e.seconds| > 1
  }

  function Step(e: Fields): int { if HasSeconds(e) then 1 else 60 }

  /** The first cursor: one step past the clock's reading, on a whole minute when stepping by minutes. */
  function StartCursor(e: Fields, reading: int): (cur: int)
    ensures reading < cur
    ensures !HasSeconds(e) ==> Second(cur) == 0
  {
    var cur := reading + Step(e);
    if HasSeconds(e) then cur else FloorMinute(cur)
  }

  /** `cur` is where a search after `reading` starts: the least whole minute after it when only second 0 can
      match, and otherwise the next second. */
  ghost predicate StartsAt(e: Fields, reading: int, cur: int) {
    if e.seconds == {0}
    then reading < cur && WholeMinutes(cur) && forall w :: reading < w && WholeMinutes(w) ==> cur <= w
    else cur == reading + 1
  }

  lemma SearchStart(e: Fields, reading: int, cur: int)
    ensures StartsAt(e, reading, cur) <==> cur == StartCursor(e, reading)
  {
    var start := StartCursor(e, reading);
    if e.seconds == {0} {
      assert WholeMinutes(start) && start <= reading + 60;
      forall w | reading < w && WholeMinutes(w) ensures start <= w {
        MinutesApart(reading, start, w);
      }
    }
  }

  lemma MinutesApart(reading: int, start: int, w: int)
    requires start <= reading + 60 && reading < w && start % 60 == 0 && w % 60 == 0
    ensures start <= w
  {
  }

  /** `cur.replace(year=cur.year + 5)`, which is an error when the date does not exist then. */
  function Horizon(cur: int): (h: Option<int>) {
    if Dom(cur) <= DaysInMonth(Year(cur) + 5, Month(cur))
    then Some(86400 * DayNumber(Year(cur) + 5, Month(cur), Dom(cur)) + cur % 86400)
    else None
  }

  // ---- the reference: look at every second ---------------------------------------------------

  /** Whether the wall time `w` ends the search, for a search strictly after instant `after`. */
  function Decide(e: Fields, z: Zone, after: int, w: int): (verdict: Verdict)
    ensures verdict == Match ==> FireOf(z, w).Some?
  {
    if DateMatches(e, w) == Match then
      if TimeMatches(e, w) && FireOf(z, w).Some? && Utc(z, FireOf(z, w).value) > after then Match else NoMatch
    else DateMatches(e, w)
  }

  function ScanSeconds(e: Fields, z: Zone, after: int, w: int, horizon: int): Outcome
    decreases horizon - w
  {
    if w >= horizon then NoFire
    else match Decide(e, z, after, w)
      case Match => Fires(FireOf(z, w).value)
      case Raises => Raised
      case NoMatch => ScanSeconds(e, z, after, w + 1, horizon)
  }

  /** What the walk is for: the second-by-second scan from the first cursor to the horizon. */
  function WalkOutcome(e: Fields, z: Zone, after: int): Outcome {
    var cur := StartCursor(e, Local(z, after));
    var horizon := Horizon(cur);
    if horizon.None? then Raised else ScanSeconds(e, z, after, cur, horizon.value)
  }

  /** Nothing in a stretch of wall time ends the search. */
  ghost predicate Quiet(e: Fields, z: Zone, after: int, lo: int, hi: int) {
    forall w {:trigger Decide(e, z, after, w)} :: lo <= w < hi ==> Decide(e, z, after, w) == NoMatch
  }

  lemma {:induction false} ScanSkipsQuiet(e: Fields, z: Zone, after: int, lo: int, hi: int, horizon: int)
    requires lo <= hi && Quiet(e, z, after, lo, hi)
    ensures ScanSeconds(e, z, after, lo, horizon) == ScanSeconds(e, z, after, hi, horizon)
    decreases hi - lo
  {
    hide Decide, FireOf;
    if lo == hi {
    } else {
      assert Decide(e, z, after, lo) == NoMatch;
      ScanSkipsQuiet(e, z, after, lo + 1, hi, horizon);
    }
  }

  /** The scan stops at the least wall time that ends the search, and only at such a one. */
  lemma {:induction false} ScanIsLeast(e: Fields, z: Zone, after: int, lo: int, horizon: int) returns (w: int)
    requires lo <= horizon
    ensures lo <= w <= horizon && Quiet(e, z, after, lo, w)
    ensures match ScanSeconds(e, z, after, lo, horizon)
            case NoFire => w == horizon
            case Raised => w < horizon && Decide(e, z, after, w) == Raises
            case Fires(when) => w < horizon && Decide(e, z, after, w) == Match && FireOf(z, w) == Some(when)
    decreases horizon - lo
  {
    hide Decide, FireOf;
    if lo < horizon && Decide(e, z, after, lo) == NoMatch {
      w := ScanIsLeast(e, z, after, lo + 1, horizon);
    } else {
      w := lo;
    }
  }

  // ---- each skip passes over nothing ---------------------------------------------------------

  function FirstOfNextMonth(w: int): int { 86400 * FirstDayOfNextMonth(DayOf(w)) }

  function NextMidnight(w: int): int { 86400 * (DayOf(w) + 1) }

  /** `(w + 1h).replace(minute=0, second=0)`. */
  function NextHour(w: int): int { w + 3600 - w % 3600 }

  lemma MonthSkipIsSound(e: Fields, z: Zone, after: int, w: int, horizon: int)
    requires Month(w) !in e.months
    ensures w < FirstOfNextMonth(w)
    ensures ScanSeconds(e, z, after, w, horizon) == ScanSeconds(e, z, after, FirstOfNextMonth(w), horizon)
  {
    FirstDayOfNextMonthFollows(DayOf(w));
    forall v | w <= v < FirstOfNextMonth(w) ensures Decide(e, z, after, v) == NoMatch {
      SameMonthUntilNext(DayOf(w), DayOf(v));
    }
    ScanSkipsQuiet(e, z, after, w, FirstOfNextMonth(w), horizon);
  }

  lemma SameDayUntilMidnight(w: int, v: int)
    requires w <= v < NextMidnight(w)
    ensures DayOf(v) == DayOf(w)
  {
  }

  lemma HourRest(w: int)
    ensures 86400 * DayOf(w) + 3600 * Hour(w) + w % 3600 == w
  {
    var r := w % 86400;
    assert w % 3600 == r % 3600 by { assert w == 3600 * (24 * (w / 86400)) + r; }
  }

  lemma SameHourUntilNext(w: int, v: int)
    requires w <= v < NextHour(w)
    ensures DayOf(v) == DayOf(w) && Hour(v) == Hour(w)
  {
    hide DayOf, Hour;
    HourRest(w);
    WallTimeParts(w);
    WithinHour(DayOf(w), Hour(w), w % 3600 + (v - w));
  }

  lemma NextMinuteStarts(w: int)
    ensures FloorMinute(w + 60) == w + 60 - Second(w)
  {
  }

  lemma SameMinuteUntilNext(w: int, v: int)
    requires w <= v < w + 60 - Second(w)
    ensures DayOf(v) == DayOf(w) && Hour(v) == Hour(w) && Minute(v) == Minute(w)
    ensures Second(v) == Second(w) + (v - w)
  {
    hide DayOf, Hour, Minute, Second;
    WallTimeParts(w);
    WallTimeRoundTrip(DayOf(w), Hour(w), Minute(w), Second(w) + (v - w));
  }

  lemma DaySkipIsSound(e: Fields, z: Zone, after: int, w: int, horizon: int)
    requires DateMatches(e, w) == NoMatch
    ensures w < NextMidnight(w)
    ensures ScanSeconds(e, z, after, w, horizon) == ScanSeconds(e, z, after, NextMidnight(w), horizon)
  {
    forall v | w <= v < NextMidnight(w) ensures Decide(e, z, after, v) == NoMatch {
      SameDayUntilMidnight(w, v);
    }
    ScanSkipsQuiet(e, z, after, w, NextMidnight(w), horizon);
  }

  lemma HourSkipIsSound(e: Fields, z: Zone, after: int, w: int, horizon: int)
    requires DateMatches(e, w) == Match && Hour(w) !in e.hours
    ensures w < NextHour(w)
    ensures ScanSeconds(e, z, after, w, horizon) == ScanSeconds(e, z, after, NextHour(w), horizon)
  {
    forall v | w <= v < NextHour(w) ensures Decide(e, z, after, v) == NoMatch {
      SameHourUntilNext(w, v);
    }
    ScanSkipsQuiet(e, z, after, w, NextHour(w), horizon);
  }

  lemma MinuteSkipIsSound(e: Fields, z: Zone, after: int, w: int, horizon: int)
    requires DateMatches(e, w) == Match && Minute(w) !in e.minutes
    ensures w < FloorMinute(w + 60)
    ensures ScanSeconds(e, z, after, w, horizon) == ScanSeconds(e, z, after, FloorMinute(w + 60), horizon)
  {
    NextMinuteStarts(w);
    forall v | w <= v < FloorMinute(w + 60) ensures Decide(e, z, after, v) == NoMatch {
      SameMinuteUntilNext(w, v);
    }
    ScanSkipsQuiet(e, z, after, w, FloorMinute(w + 60), horizon);
  }

  /** Stepping on from a matching time that did not fire: within its minute only second 0 can match
      when the walk steps by minutes. */
  lemma StepIsSound(e: Fields, z: Zone, after: int, w: int, horizon: int)
    requires w < horizon && DateMatches(e, w) == Match && TimeMatches(e, w) && Decide(e, z, after, w) == NoMatch
    ensures ScanSeconds(e, z, after, w, horizon) == ScanSeconds(e, z, after, w + Step(e), horizon)
  {
    hide FireOf, Utc, DayMatches, Hour, Minute, MonthOfDay;
    if !HasSeconds(e) {
      assert e.seconds == {0} && Second(w) == 0;
      forall v | w <= v < w + 60 ensures Decide(e, z, after, v) == NoMatch {
        SameMinuteUntilNext(w, v);
      }
    }
    ScanSkipsQuiet(e, z, after, w, w + Step(e), horizon);
  }

  // ---- the walk ------------------------------------------------------------------------------

  /** Localise a matching wall time, past its gap when it has one, and keep it if it is still ahead. */
  method Land(z: Zone, after: int, cur: int) returns (fired: Option<Aware>)
    ensures fired == if FireOf(z, cur).Some? && Utc(z, FireOf(z, cur).value) > after then FireOf(z, cur) else None
  {
    var localised := Localise(z, cur);
    if localised.None? {
      localised := FirstValidAfterGap(z, cur);
    }
    if localised.None? || Utc(z, localised.value) <= after {
      return None;
    }
    return localised;
  }

  /** Walk coarse-to-fine to the next matching wall-clock time. */
  method WalkWallClock(e: Fields, z: Zone, after: int) returns (r: Outcome)
    ensures r == WalkOutcome(e, z, after)
  {
    hide FireOf, Utc, Local, Horizon, DayMatches, Month, DayOf, Hour, Minute, Second;
    hide FloorMinute, NextHour, StartCursor;
    var cur := StartCursor(e, Local(z, after));
    var limit := Horizon(cur);
    if limit.None? {
      return Raised;
    }
    var horizon := limit.value;
    ghost var answer := ScanSeconds(e, z, after, cur, horizon);

    while cur < horizon
      invariant answer == ScanSeconds(e, z, after, cur, horizon)
      decreases horizon - cur
    {
      if Month(cur) !in e.months {
        MonthSkipIsSound(e, z, after, cur, horizon);
        cur := FirstOfNextMonth(cur);
        continue;
      }
      var day := DayMatches(e, DayOf(cur));
      if day == Raises {
        return Raised;
      }
      if day == NoMatch {
        DaySkipIsSound(e, z, after, cur, horizon);
        cur := NextMidnight(cur);
        continue;
      }
      if Hour(cur) !in e.hours {
        HourSkipIsSound(e, z, after, cur, horizon);
        cur := NextHour(cur);
        continue;
      }
      if Minute(cur) !in e.minutes {
        MinuteSkipIsSound(e, z, after, cur, horizon);
        cur := FloorMinute(cur + 60);
        continue;
      }
      if Second(cur) !in e.seconds {
        cur := cur + 1;
        continue;
      }
      var fired := Land(z, after, cur);
      if fired.Some? {
        return Fires(fired.value);
      }
      StepIsSound(e, z, after, cur, horizon);
      cur := cur + Step(e);
    }
    return NoFire;
  }

  // ---- the horizon ---------------------------------------------------------------------------

  lemma FiveYears(y: int)
    ensures 1825 <= DaysBeforeYear(y + 5) - DaysBeforeYear(y) <= 1830
  {
    YearStep(y);
    YearStep(y + 1);
    YearStep(y + 2);
    YearStep(y + 3);
    YearStep(y + 4);
  }

  lemma NotLeapFiveYearsOn(y: int)
    ensures !(IsLeap(y) && IsLeap(y + 5))
  {
  }

  /** The search has no horizon, and so raises, exactly when it would start on 29 February. */
  lemma HorizonMissingIffLeapDay(cur: int)
    ensures Horizon(cur).None? <==> Month(cur) == 2 && Dom(cur) == 29
  {
    hide YearOfDay, MonthOfDay, DayOfDay, IsLeap;
    NotLeapFiveYearsOn(Year(cur));
  }

  lemma MonthShift(y: int, y': int, m: int)
    requires 1 <= m <= 12
    ensures -1 <= DaysBeforeMonth(y', m) - DaysBeforeMonth(y, m) <= 1
  {
    MonthTable(y);
    MonthTable(y');
  }

  lemma HorizonIsLater(cur: int)
    requires Horizon(cur).Some?
    ensures cur + 86400 * 1824 <= Horizon(cur).value <= cur + 86400 * 1831
  {
    hide DaysBeforeMonth, DaysBeforeYear;
    FiveYears(Year(cur));
    MonthShift(Year(cur), Year(cur) + 5, Month(cur));
  }

  /** The horizon is the same month, day and time of day five years on, and exists when that date does. */
  lemma HorizonMeans(cur: int, h: int)
    ensures Horizon(cur) == Some(h) <==>
      && Year(h) == Year(cur) + 5 && Month(h) == Month(cur) && Dom(h) == Dom(cur)
      && Hour(h) == Hour(cur) && Minute(h) == Minute(cur) && Second(h) == Second(cur)
  {
    hide DaysBeforeMonth, DaysBeforeYear, Hour, Minute, Second, YearOfDay, MonthOfDay, DayOfDay, DayNumber;
    WallTimeParts(cur);
    WallTimeParts(h);
    if Horizon(cur).Some? {
      var day := DayNumber(Year(cur) + 5, Month(cur), Dom(cur));
      DateRoundTrip(Year(cur) + 5, Month(cur), Dom(cur));
      TimeOfDay(cur);
      assert Horizon(cur).value == WallTime(day, Hour(cur), Minute(cur), Second(cur));
      WallTimeRoundTrip(day, Hour(cur), Minute(cur), Second(cur));
    }
  }

  lemma TimeOfDay(w: int)
    ensures w % 86400 == 3600 * Hour(w) + 60 * Minute(w) + Second(w)
  {
    hide Hour, Minute, Second;
    WallTimeParts(w);
  }
}

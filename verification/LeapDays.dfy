/** When the search gives nothing or an exception: the five-year horizon, and starts on 29 February. */
module LeapDays {
  import opened Calendar
  import opened Wrappers
  import opened Zones
  import opened CronExpression
  import opened CronWalk
  import opened CronDue
  import opened CronRepeat
  import opened CronNext

  predicate OnLeapDay(w: int) { Month(w) == 2 && Dom(w) == 29 }

  lemma WalkRaisesIff(e: Fields, z: Zone, after: int)
    requires NearestInRange(e)
    ensures WalkOutcome(e, z, after) == Raised <==> OnLeapDay(StartCursor(e, Local(z, after)))
  {
    hide Decide, Local, StartCursor, Horizon, Month, Dom;
    var cur := StartCursor(e, Local(z, after));
    HorizonMissingIffLeapDay(cur);
    if Horizon(cur).Some? {
      HorizonIsLater(cur);
      var w := ScanIsLeast(e, z, after, cur, Horizon(cur).value);
      DecideNeverRaises(e, z, after, w);
    }
  }

  lemma DecideNeverRaises(e: Fields, z: Zone, after: int, w: int)
    requires NearestInRange(e)
    ensures Decide(e, z, after, w) != Raises
  {
    hide FireOf, Utc, DayMatches;
    NothingRaises(e, DayOf(w));
  }

  /** A field expression whose `nW` form is in range fails to evaluate exactly when the search would start on
      29 February: when the clock shows that date a second later or, if only second 0 can match, a minute
      later. */
  lemma NextRaisesIffLeapDay(e: Fields, z: Zone, after: int)
    requires NearestInRange(e)
    ensures NextOutcome(e, z, after) == Raised <==> OnLeapDay(Local(z, after) + if e.seconds == {0} then 60 else 1)
    ensures forall cur :: StartsAt(e, Local(z, after), cur) ==> (NextOutcome(e, z, after) == Raised <==> OnLeapDay(cur))
  {
    hide Local, StartCursor, DayOf, MonthOfDay, DayOfDay, WalkOutcome, ScanRepeat, OffsetAt, Utc, StartsAt;
    WalkRaisesIff(e, z, after);
    ScanRepeatIsLeast(e, z, after, FloorMinute(Local(z, after - 7200)), 260);
    forall cur | StartsAt(e, Local(z, after), cur) ensures cur == StartCursor(e, Local(z, after)) {
      SearchStart(e, Local(z, after), cur);
    }
    StartDay(e, Local(z, after));
  }

  /** The search starts on the day the clock shows that much later: midnight is a whole minute. */
  lemma StartDay(e: Fields, reading: int)
    ensures DayOf(StartCursor(e, reading)) == DayOf(reading + if e.seconds == {0} then 60 else 1)
  {
    var cur := StartCursor(e, reading);
    SearchStart(e, reading, cur);
    if e.seconds == {0} {
      MinuteOnTheSameDay(reading + 60, cur);
    }
  }

  lemma MinuteOnTheSameDay(w: int, cur: int)
    requires cur == FloorMinute(w)
    ensures DayOf(cur) == DayOf(w)
  {
    assert cur / 60 == w / 60;
    assert (w / 60) / 1440 == w / 86400;
  }

  /** At noon on 29 February 2028, in a zone at UTC, no such expression can be evaluated. */
  lemma RaisesAtNoon(e: Fields)
    requires NearestInRange(e)
    ensures NextOutcome(e, Zone(0, []), WallTime(DayNumber(2028, 2, 29), 12, 0, 0)) == Raised
  {
    hide NextOutcome, DayNumber, OnLeapDay;
    var day := DayNumber(2028, 2, 29);
    var after := WallTime(day, 12, 0, 0);
    NoonIsWithin(day);
    LeapDayIs(2028, 2, 29, after + 1);
    LeapDayIs(2028, 2, 29, after + 60);
    NextRaisesIffLeapDay(e, Zone(0, []), after);
  }

  lemma NoonIsWithin(day: int)
    ensures var w := WallTime(day, 12, 0, 0);
            DayOf(w + 1) == day && DayOf(w + 60) == day && Local(Zone(0, []), w) == w
  {
  }

  /** In its last half minute, those that fire at second 0 only can be evaluated and the others cannot; in the
      last half minute of the day before it is the other way round. */
  lemma RaisesAroundMidnight(e: Fields)
    requires NearestInRange(e)
    ensures NextOutcome(e, Zone(0, []), WallTime(DayNumber(2028, 2, 29), 23, 59, 30)) == Raised <==> e.seconds != {0}
    ensures NextOutcome(e, Zone(0, []), WallTime(DayNumber(2028, 2, 28), 23, 59, 30)) == Raised <==> e.seconds == {0}
  {
    hide NextOutcome, DayNumber, OnLeapDay;
    var d28, d29, d1 := DayNumber(2028, 2, 28), DayNumber(2028, 2, 29), DayNumber(2028, 3, 1);
    MarchFollows(2028);
    HalfAMinuteToMidnight(d28);
    HalfAMinuteToMidnight(d29);
    LeapDayIs(2028, 2, 28, WallTime(d28, 23, 59, 30) + 1);
    LeapDayIs(2028, 2, 29, WallTime(d28, 23, 59, 30) + 60);
    LeapDayIs(2028, 2, 29, WallTime(d29, 23, 59, 30) + 1);
    LeapDayIs(2028, 3, 1, WallTime(d29, 23, 59, 30) + 60);
    NextRaisesIffLeapDay(e, Zone(0, []), WallTime(d28, 23, 59, 30));
    NextRaisesIffLeapDay(e, Zone(0, []), WallTime(d29, 23, 59, 30));
  }

  lemma HalfAMinuteToMidnight(day: int)
    ensures var w := WallTime(day, 23, 59, 30);
            DayOf(w + 1) == day && DayOf(w + 60) == day + 1 && Local(Zone(0, []), w) == w
  {
  }

  lemma LeapDayIs(y: int, m: int, d: int, w: int)
    requires ValidDate(y, m, d) && DayOf(w) == DayNumber(y, m, d)
    ensures OnLeapDay(w) <==> m == 2 && d == 29
  {
    DateRoundTrip(y, m, d);
  }

  lemma MarchFollows(y: int)
    requires IsLeap(y)
    ensures DayNumber(y, 3, 1) == DayNumber(y, 2, 29) + 1 && DayNumber(y, 2, 29) == DayNumber(y, 2, 28) + 1
  {
  }

  // ---- when `None` is returned ---------------------------------------------------------------

  /** In a fixed-offset zone every wall time from the first cursor on fires as itself, in the future. */
  lemma FixedOffsetDecides(e: Fields, z: Zone, after: int, w: int)
    requires z.trans == [] && NearestInRange(e) && w > Local(z, after)
    ensures Decide(e, z, after, w) == Match <==> Matches(e, w)
  {
    assert Localise(z, w) == Some(Aware(w, false));
  }

  /** In a fixed-offset zone `None` means exactly that no wall time within five years of the start matches:
      whether one matches later makes no difference. */
  lemma NeverIff(e: Fields, z: Zone, after: int)
    requires z.trans == [] && NearestInRange(e)
    ensures var cur := StartCursor(e, Local(z, after));
            NextOutcome(e, z, after) == NoFire <==>
              Horizon(cur).Some? && !exists w :: cur <= w < Horizon(cur).value && Matches(e, w)
  {
    hide Decide, Matches, Local, StartCursor, Horizon;
    var cur := StartCursor(e, Local(z, after));
    StartIsAhead(e, Local(z, after));
    if Horizon(cur).Some? {
      HorizonIsLater(cur);
      var w := ScanIsLeast(e, z, after, cur, Horizon(cur).value);
      forall v | cur <= v ensures Decide(e, z, after, v) == Match <==> Matches(e, v) {
        FixedOffsetDecides(e, z, after, v);
      }
      DecideNeverRaises(e, z, after, w);
    }
  }

  /** A match with two offsets whose second pass is ahead, where the second-pass search looks. */
  ghost predicate SearchFinds(e: Fields, z: Zone, after: int, i: nat, w: int) {
    && i < |z.trans| && Unsettled(z, i, w) && Matches(e, w)
    && after < w - Off(z, i + 1) && InReach(z, i, after, w)
  }

  /** In a zone with transitions `None` means that nothing ahead is scheduled by a wall time before the horizon
      and, unless the expression is hour-anchored, that the second-pass search has nothing to find. */
  lemma NeverInAnyZoneIff(e: Fields, z: Zone, after: int)
    requires ValidZone(z) && NearestInRange(e) && (HourAnchored(e) || ModestNear(z, after))
    ensures var horizon := Horizon(StartCursor(e, Local(z, after)));
            NextOutcome(e, z, after) == NoFire <==>
              && horizon.Some? && (!exists w, u :: Scheduled(e, z, w, u) && after < u && w < horizon.value)
              && (HourAnchored(e) || !exists i: nat, w :: SearchFinds(e, z, after, i, w))
  {
    hide Local, Utc, StartCursor, Horizon, WalkOutcome, RepeatOutcome, Scheduled, SearchFinds;
    WalkIsLeastDue(e, z, after);
    if !HourAnchored(e) {
      SearchFindsIff(e, z, after);
    }
  }

  lemma SearchFindsIff(e: Fields, z: Zone, after: int)
    requires ValidZone(z) && NearestInRange(e) && ModestNear(z, after)
    ensures RepeatOutcome(e, z, after) == NoFire <==> !exists i: nat, w :: SearchFinds(e, z, after, i, w)
  {
    hide Utc, RepeatOutcome, Matches, InReach, Unsettled;
    if RepeatOutcome(e, z, after) != NoFire {
      var i := RepeatIsSound(e, z, after);
      assert SearchFinds(e, z, after, i, RepeatOutcome(e, z, after).when.wall);
    }
    if i: nat, w :| SearchFinds(e, z, after, i, w) {
      InReachIsFound(e, z, after, i, w);
    }
  }

  // ---- a fifth Monday in February ------------------------------------------------------------

  /** `0 0 * 2 MON#5`. */
  ghost predicate FifthMondayOfFebruary(e: Fields) {
    && e.seconds == {0} && e.minutes == {0} && e.hours == {0} && e.months == {2}
    && !e.domRestricted && e.dowRestricted
    && e.daysOfWeek == {} && e.nthDow == Some((1, 5)) && e.lastDow == None && e.nearestWeekday == None
  }

  /** It matches on 29 February only. */
  lemma FifthMondayIsLeapDay(e: Fields, w: int)
    requires FifthMondayOfFebruary(e) && Matches(e, w)
    ensures IsLeap(Year(w)) && DayOf(w) == DayNumber(Year(w), 2, 29) && CronDow(DayOf(w)) == 1
  {
    hide CronDow, DayNumber, YearOfDay, MonthOfDay, DayOf, Hour, Minute, Second;
  }

  lemma LeapDayWeekdays()
    ensures CronDow(DayNumber(2020, 2, 29)) == 6 && CronDow(DayNumber(2044, 2, 29)) == 1
  {
    LeapDayNumber(2020);
    LeapDayNumber(2044);
  }

  lemma FifthMonday2044(e: Fields)
    requires FifthMondayOfFebruary(e)
    ensures Matches(e, WallTime(DayNumber(2044, 2, 29), 0, 0, 0))
  {
    hide CronDow, DayNumber, YearOfDay, MonthOfDay, DayOfDay, DayOf, Hour, Minute, Second, WallTime;
    LeapDayWeekdays();
    DateRoundTrip(2044, 2, 29);
    WallTimeRoundTrip(DayNumber(2044, 2, 29), 0, 0, 0);
  }

  /** From 1 March 2017, in a zone at UTC, it is reported as never firing, although it matches on Monday
      29 February 2044; no century year lies between. */
  lemma FifthMondayIsMissed(e: Fields)
    requires FifthMondayOfFebruary(e)
    ensures NextOutcome(e, Zone(0, []), WallTime(DayNumber(2017, 3, 1), 0, 0, 0)) == NoFire
    ensures Matches(e, WallTime(DayNumber(2044, 2, 29), 0, 0, 0))
  {
    hide NextOutcome, YearOfDay, MonthOfDay, DayOfDay, Matches, Horizon, DayNumber, CronDow;
    var z, after := Zone(0, []), WallTime(DayNumber(2017, 3, 1), 0, 0, 0);
    var cur := StartCursor(e, Local(z, after));
    DateRoundTrip(2017, 3, 1);
    assert Local(z, after) == after;
    assert DayOf(cur) == DayNumber(2017, 3, 1);
    FifthMonday2044(e);
    NeverIff(e, z, after);
    HorizonMissingIffLeapDay(cur);
    HorizonIsLater(cur);
    forall w | cur <= w < Horizon(cur).value ensures !Matches(e, w) {
      if Matches(e, w) {
        FifthMondayIsLeapDay(e, w);
        LeapDayAfter2017(Year(w), DayOf(w));
        LeapDayWeekdays();
      }
    }
  }

  lemma LeapDayAfter2017(y: int, day: int)
    requires IsLeap(y) && day == DayNumber(y, 2, 29) && DayNumber(2017, 3, 1) <= day <= DayNumber(2017, 3, 1) + 1832
    ensures y == 2020
  {
    LeapDayNumber(y);
    MonthTable(2017);
    if y < 2017 {
      YearsOrdered(y, 2017);
    } else if y > 2023 {
      YearsOrdered(2023, y);
    }
  }

  lemma LeapDayNumber(y: int)
    ensures DayNumber(y, 2, 29) == DaysBeforeYear(y) + 59
  {
    MonthTable(y);
  }

  // ---- an alarm on 29 February ---------------------------------------------------------------

  /** `minute hour 29 2 *`. */
  ghost predicate LeapDayAlarm(e: Fields, hour: int, minute: int) {
    && 0 <= hour < 24 && 0 <= minute < 60
    && e.seconds == {0} && e.minutes == {minute} && e.hours == {hour}
    && e.months == {2} && e.daysOfMonth == {29}
    && e.domRestricted && !e.dowRestricted
    && !e.lastDayOfMonth && e.lastDomOffset == None && e.nearestWeekday == None
  }

  function LeapDayAt(y: int, hour: int, minute: int): int {
    WallTime(DayNumber(y, 2, 29), hour, minute, 0)
  }

  lemma LeapDayAlarmMatches(e: Fields, hour: int, minute: int, w: int)
    requires LeapDayAlarm(e, hour, minute)
    ensures Matches(e, w) <==> IsLeap(Year(w)) && w == LeapDayAt(Year(w), hour, minute)
  {
    hide DayNumber, YearOfDay, MonthOfDay, DayOfDay, DayOf, Hour, Minute, Second;
    WallTimeParts(w);
    if IsLeap(Year(w)) && w == LeapDayAt(Year(w), hour, minute) {
      WallTimeRoundTrip(DayNumber(Year(w), 2, 29), hour, minute, 0);
      DateRoundTrip(Year(w), 2, 29);
    }
  }

  lemma LeapDayYear(y: int, hour: int, minute: int)
    requires IsLeap(y) && 0 <= hour < 24 && 0 <= minute < 60
    ensures Year(LeapDayAt(y, hour, minute)) == y
  {
    hide DayNumber, YearOfDay, MonthOfDay, DayOfDay, DayOf, Hour, Minute, Second;
    WallTimeRoundTrip(DayNumber(y, 2, 29), hour, minute, 0);
    DateRoundTrip(y, 2, 29);
  }

  /** `minute hour 29 2 *` in a fixed-offset zone, from any day but 29 February: `None` means exactly
      that the five-year window holds no 29 February at that time. */
  lemma LeapDayAlarmNeverIff(e: Fields, z: Zone, after: int, hour: int, minute: int)
    requires z.trans == [] && LeapDayAlarm(e, hour, minute)
    requires !OnLeapDay(StartCursor(e, Local(z, after)))
    ensures var cur := StartCursor(e, Local(z, after));
            && Horizon(cur).Some?
            && (NextOutcome(e, z, after) == NoFire <==>
                forall y {:trigger IsLeap(y)} :: IsLeap(y) ==>
                  !(cur <= LeapDayAt(y, hour, minute) < Horizon(cur).value))
  {
    hide NextOutcome, Matches, Local, StartCursor, Horizon, LeapDayAt, Year;
    HorizonMissingIffLeapDay(StartCursor(e, Local(z, after)));
    NeverIff(e, z, after);
    forall w | Matches(e, w) ensures IsLeap(Year(w)) && w == LeapDayAt(Year(w), hour, minute) {
      LeapDayAlarmMatches(e, hour, minute, w);
    }
    forall y | IsLeap(y) ensures Matches(e, LeapDayAt(y, hour, minute)) {
      LeapDayYear(y, hour, minute);
      LeapDayAlarmMatches(e, hour, minute, LeapDayAt(y, hour, minute));
    }
  }

  lemma HorizonFollows(cur: int)
    requires Horizon(cur).Some?
    ensures cur < Horizon(cur).value
  {
    HorizonIsLater(cur);
  }

  function HorizonAfter(cur: int): (h: int)
    requires !OnLeapDay(cur)
    ensures Horizon(cur) == Some(h) && cur < h
  {
    HorizonMissingIffLeapDay(cur);
    HorizonFollows(cur);
    Horizon(cur).value
  }

  // ---- only a common century year leaves five years without one ------------------------------

  /** The first year whose 29 February, if it has one, is not before `cur`. */
  function FirstYear(cur: int): int {
    if Month(cur) <= 2 then Year(cur) else Year(cur) + 1
  }

  lemma StartOfMonthOrdered(y: int, m: int)
    requires 1 <= m <= 12
    ensures 0 <= DaysBeforeMonth(y, m) <= 335
    ensures m <= 2 ==> DaysBeforeMonth(y, m) <= 31
    ensures m >= 3 ==> DaysBeforeMonth(y, m) >= 59
    ensures m >= 3 && IsLeap(y) ==> DaysBeforeMonth(y, m) >= 60
    ensures DaysBeforeMonth(y, m) + DaysInMonth(y, m) <= DaysInYear(y)
  {
    MonthTable(y);
  }

  /** Each of the five years from `FirstYear` has its 29 February, if any, inside the window. */
  lemma WindowHoldsFiveFebruaries(cur: int, y: int, hour: int, minute: int)
    requires !OnLeapDay(cur) && IsLeap(y) && FirstYear(cur) <= y < FirstYear(cur) + 5
    requires 0 <= hour < 24 && 0 <= minute < 60
    ensures cur <= LeapDayAt(y, hour, minute) < HorizonAfter(cur)
  {
    hide YearOfDay, MonthOfDay, DayOfDay, DaysBeforeYear, DaysBeforeMonth;
    var c, m, d := Year(cur), Month(cur), Dom(cur);
    var day, last := DayOf(cur), DayNumber(c + 5, m, d);
    assert day == DayNumber(c, m, d);
    assert 86400 * day <= cur < 86400 * (day + 1);
    assert HorizonAfter(cur) >= 86400 * last;
    StartOfMonthOrdered(c, m);
    StartOfMonthOrdered(c + 5, m);
    MonthTable(y);
    if c < y { YearsOrdered(c, y); }
    if y < c + 5 { YearsOrdered(y, c + 5); }
    assert DayNumber(y, 2, 29) == DaysBeforeYear(y) + 59;
    assert day < DayNumber(y, 2, 29);
    assert DayNumber(y, 2, 29) < last;
  }

  /** One of any five successive years is a multiple of four. */
  lemma MultipleOfFourInFive(y: int) returns (y': int)
    ensures y <= y' < y + 5 && y' % 4 == 0
  {
    y' := y + (-y) % 4;
  }

  /** The alarm on 29 February is reported as never firing only where the window spans a century year
      that is not a leap year. */
  lemma LeapDayAlarmNeverNeedsCommonCentury(e: Fields, z: Zone, after: int, hour: int, minute: int) returns (y: int)
    requires z.trans == [] && LeapDayAlarm(e, hour, minute)
    requires !OnLeapDay(StartCursor(e, Local(z, after))) && NextOutcome(e, z, after) == NoFire
    ensures var first := FirstYear(StartCursor(e, Local(z, after)));
            first <= y < first + 5 && y % 100 == 0 && y % 400 != 0
  {
    hide Local, StartCursor, Horizon, LeapDayAt, NextOutcome, OnLeapDay, FirstYear;
    var cur := StartCursor(e, Local(z, after));
    LeapDayAlarmNeverIff(e, z, after, hour, minute);
    y := MultipleOfFourInFive(FirstYear(cur));
    if IsLeap(y) {
      WindowHoldsFiveFebruaries(cur, y, hour, minute);
    }
  }

  /** From 1 March 2096, in a zone at UTC, the alarm on 29 February is reported as never firing, although
      29 February 2104 matches. */
  lemma NextLeapDayIsMissed(e: Fields, hour: int, minute: int)
    requires LeapDayAlarm(e, hour, minute)
    ensures NextOutcome(e, Zone(0, []), WallTime(DayNumber(2096, 3, 1), 0, 0, 0)) == NoFire
    ensures Matches(e, LeapDayAt(2104, hour, minute))
  {
    hide NextOutcome, YearOfDay, MonthOfDay, DayOfDay, Matches, Horizon, LeapDayAt;
    var z, after := Zone(0, []), WallTime(DayNumber(2096, 3, 1), 0, 0, 0);
    var cur := StartCursor(e, Local(z, after));
    DateRoundTrip(2096, 3, 1);
    assert Local(z, after) == after;
    assert DayOf(cur) == DayNumber(2096, 3, 1);
    LeapDayAlarmNeverIff(e, z, after, hour, minute);
    HorizonIsLater(cur);
    forall y {:trigger IsLeap(y)} | IsLeap(y) ensures !(cur <= LeapDayAt(y, hour, minute) < Horizon(cur).value) {
      NotInTheWindow(cur, y, hour, minute);
    }
    LeapDayYear(2104, hour, minute);
    LeapDayAlarmMatches(e, hour, minute, LeapDayAt(2104, hour, minute));
  }

  lemma NotInTheWindow(cur: int, y: int, hour: int, minute: int)
    requires DayOf(cur) == DayNumber(2096, 3, 1) && IsLeap(y) && 0 <= hour < 24 && 0 <= minute < 60
    ensures LeapDayAt(y, hour, minute) < cur || cur + 86400 * 1831 < LeapDayAt(y, hour, minute)
  {
    LeapDayNumber(y);
    MonthTable(2096);
    assert DayNumber(2096, 3, 1) + 2000 < DaysBeforeYear(2104);
    if y < 2096 {
      YearsOrdered(y, 2096);
    } else if y > 2104 {
      YearsOrdered(2104, y);
    } else {
      assert y == 2096 || y == 2104;
    }
  }

  /** `minute hour 30 2 *` and `31 2` never fire, in any zone. */
  lemma ThirtiethOfFebruaryNeverFires(e: Fields, z: Zone, after: int)
    requires e.months == {2} && e.daysOfMonth <= {30, 31}
    requires e.domRestricted && !e.dowRestricted
    requires !e.lastDayOfMonth && e.lastDomOffset == None && e.nearestWeekday == None
    requires !OnLeapDay(StartCursor(e, Local(z, after)))
    ensures NextOutcome(e, z, after) == NoFire
  {
    hide Decide, Local, StartCursor, Horizon, OnLeapDay, ScanRepeat, DateMatches, OffsetAt, FoldDiffers, Utc;
    var cur := StartCursor(e, Local(z, after));
    var w := ScanIsLeast(e, z, after, cur, HorizonAfter(cur));
    NoThirtiethOfFebruary(e, z, after, w);
    ScanRepeatIsLeast(e, z, after, FloorMinute(Local(z, after - 7200)), 260);
    if RepeatOutcome(e, z, after).Fires? {
      NoThirtiethOfFebruary(e, z, after, RepeatOutcome(e, z, after).when.wall);
    }
  }

  lemma NoThirtiethOfFebruary(e: Fields, z: Zone, after: int, w: int)
    requires e.months == {2} && e.daysOfMonth <= {30, 31} && e.domRestricted && !e.dowRestricted
    requires !e.lastDayOfMonth && e.lastDomOffset == None && e.nearestWeekday == None
    ensures DateMatches(e, w) == NoMatch && Decide(e, z, after, w) == NoMatch
  {
    hide FireOf, Utc, YearOfDay, MonthOfDay, DayOfDay;
    assert Dom(w) <= DaysInMonth(Year(w), Month(w));
  }
}

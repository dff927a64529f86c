/** Where the promise about elapsed time holds and where it fails, on concrete expressions and zones. */
module CronExamples {
  import opened Calendar
  import opened Ranges
  import opened Wrappers
  import opened Zones
  import opened CronExpression
  import opened CronWalk
  import opened CronDue
  import opened CronRepeat
  import opened CronNext
  import opened CronElapsed

  /** Not pinning the hour means allowing every one of them. */
  lemma WildcardAllowsEveryHour(e: Fields)
    requires InRange(e)
    ensures HourAnchored(e) <==> e.hours != Between(0, 23)
  {
    BetweenSize(0, 23);
    SubsetsAreSmaller(e.hours, Between(0, 23));
  }

  // ---- where it holds ------------------------------------------------------------------------

  /** Transition `i` is no gap, or a one-hour gap on the hour with no midnight within an hour of it. */
  predicate OrdinaryGap(z: Zone, i: nat)
    requires i < |z.trans|
  {
    var start := z.trans[i].at + Off(z, i);
    Off(z, i + 1) > Off(z, i) ==>
      Off(z, i + 1) - Off(z, i) == 3600 && start % 3600 == 0 && DayOf(start - 3600) == DayOf(start + 3600)
  }

  lemma HourBack(w: int)
    ensures Minute(w - 3600) == Minute(w) && Second(w - 3600) == Second(w)
  {
    assert (w - 3600) % 3600 == w % 3600;
    assert (w - 3600) % 60 == w % 60;
  }

  lemma SameDayBetween(lo: int, w: int, hi: int)
    requires lo <= w <= hi && DayOf(lo) == DayOf(hi)
    ensures DayOf(w) == DayOf(lo)
  {
  }

  lemma HoursStayInDay(w: int)
    ensures 0 <= Hour(w) < 24
  {
    WallTimeParts(w);
  }

  lemma OnTheHour(w: int)
    requires w % 3600 == 0
    ensures Minute(w) == 0 && Second(w) == 0
  {
    assert w == 60 * (60 * (w / 3600));
  }

  lemma OrdinaryGapIsHarmless(e: Fields, z: Zone, i: nat, w: int)
    requires InRange(e) && !HourAnchored(e) && i < |z.trans| && OrdinaryGap(z, i) && InGap(z, i, w) && Matches(e, w)
    ensures Matches(e, GhostReading(z, i, w))
  {
    hide DayMatches, Hour, Minute, Second, DayOf, MonthOfDay, Between, HourAnchored;
    var start := z.trans[i].at + Off(z, i);
    WildcardAllowsEveryHour(e);
    HourBack(w);
    HoursStayInDay(w - 3600);
    SameDayBetween(start - 3600, w, start + 3600);
    SameDayBetween(start - 3600, w - 3600, start + 3600);
    assert GhostReading(z, i, w) == w - 3600;
  }

  lemma OrdinaryEdgeMatches(e: Fields, z: Zone, i: nat, w: int)
    requires InRange(e) && !HourAnchored(e) && 0 in e.minutes && 0 in e.seconds
    requires i < |z.trans| && OrdinaryGap(z, i) && InGap(z, i, w) && Matches(e, w)
    ensures Matches(e, GapEdge(z, i))
  {
    hide DayMatches, Hour, Minute, Second, DayOf, MonthOfDay, Between, HourAnchored;
    var start := z.trans[i].at + Off(z, i);
    WildcardAllowsEveryHour(e);
    assert GapEdge(z, i) == start + 3600 && (start + 3600) % 3600 == 0;
    OnTheHour(start + 3600);
    HoursStayInDay(start + 3600);
    SameDayBetween(start - 3600, w, start + 3600);
  }

  /** An expression over every hour that includes minute 0 and second 0, such as every fifteen minutes,
      follows real elapsed time in a zone whose gaps are ordinary and whose fall-backs are short, on any days
      it is restricted to. */
  lemma OnTheHourFollowsElapsedTime(e: Fields, z: Zone)
    requires ValidZone(z) && NearestInRange(e) && InRange(e) && !HourAnchored(e)
    requires forall i: nat {:trigger ShortAt(z, i)} :: i < |z.trans| ==> ShortAt(z, i)
    requires 0 in e.minutes && 0 in e.seconds
    requires forall i: nat {:trigger OrdinaryGap(z, i)} :: i < |z.trans| ==> OrdinaryGap(z, i)
    ensures FollowsElapsedTime(e, z)
  {
    hide Matches, OrdinaryGap, InGap, NextOutcome, EdgeInReach, FollowsElapsedTime;
    ShortIsModest(z);
    forall i: nat | i < |z.trans| ensures CleanGap(e, z, i) && CleanFallBack(e, z, i) {
      ShortFallBackIsClean(e, z, i);
      assert OrdinaryGap(z, i);
      forall w | Ghostly(e, z, i, w) ensures Matches(e, GhostReading(z, i, w)) {
        OrdinaryGapIsHarmless(e, z, i, w);
      }
      forall w | MissedMatch(e, z, i, w) ensures Matches(e, GapEdge(z, i)) {
        OrdinaryEdgeMatches(e, z, i, w);
      }
    }
    FollowsElapsedTimeIff(e, z);
  }

  lemma ShortIsModest(z: Zone)
    requires forall i: nat {:trigger ShortAt(z, i)} :: i < |z.trans| ==> ShortAt(z, i)
    ensures Modest(z)
  {
    forall i: nat | i < |z.trans| ensures ModestAt(z, i) {
      assert ShortAt(z, i);
      assert i + 1 < |z.trans| ==> ShortAt(z, i + 1);
    }
  }

  // ---- where it fails ------------------------------------------------------------------------

  /** Every hour at `minute`, on every day. */
  function EveryHourAt(minute: int): Fields {
    Fields({0}, {minute}, Between(0, 23), Between(1, 31), Between(1, 12), Between(0, 6),
           false, false, false, None, None, None, None)
  }

  /** A zone at UTC until 02:00 on the first day, when its clock moves forward by `gap` seconds. */
  function Springing(gap: int): Zone { Zone(0, [Transition(7200, gap)]) }

  lemma SpringingIsValid(gap: int)
    requires 0 <= gap <= 7200 && gap % 60 == 0
    ensures ValidZone(Springing(gap)) && Modest(Springing(gap)) && ClearOfLeapDay(Springing(gap), 0)
  {
    var z := Springing(gap);
    assert Off(z, 0) == 0 && Off(z, 1) == gap;
    forall cur | 0 <= cur <= 7260 ensures Horizon(cur).Some? {
      FirstDayHasAHorizon(cur);
    }
  }

  lemma FirstDayHasAHorizon(cur: int)
    requires 0 <= cur < 86400
    ensures Horizon(cur).Some?
  {
    assert DayOf(cur) == 0 == DayNumber(1, 1, 1);
    DateRoundTrip(1, 1, 1);
    HorizonMissingIffLeapDay(cur);
  }

  lemma SecondIs(w: int)
    ensures Second(w) == w % 60
  {
  }

  lemma EveryHourMatches(minute: int, w: int)
    requires 0 <= minute < 60
    ensures NearestInRange(EveryHourAt(minute)) && !HourAnchored(EveryHourAt(minute))
    ensures Matches(EveryHourAt(minute), w) <==> w % 3600 == 60 * minute
  {
    hide Between, DayOf, Hour, Minute, Second, MonthOfDay;
    BetweenSize(0, 23);
    WallTimeParts(w);
    MinuteInHour(w);
    SecondIs(w);
  }

  /** `17 * * * *` across a one-hour gap at 02:00 fires at 03:00, a reading it does not match: the
      wildcard-hour promise of no extra fires fails. */
  lemma SparseMinuteFiresAtTheEdge()
    ensures var z := Springing(3600);
            var r := NextOutcome(EveryHourAt(17), z, 7199);
            && r.Fires? && Utc(z, r.when) == 7200 && Local(z, 7200) == 10800
            && !Matches(EveryHourAt(17), 10800) && !FollowsElapsedTime(EveryHourAt(17), z)
  {
    hide Matches, NextOutcome, Local, Utc, Horizon, StartCursor, Between;
    var z, e := Springing(3600), EveryHourAt(17);
    SpringingIsValid(3600);
    EveryHourMatches(17, 8220);
    EveryHourMatches(17, 10800);
    assert Off(z, 0) == 0 && Off(z, 1) == 3600;
    assert MissedMatch(e, z, 0, 8220);
    EdgeFiresNext(e, z, 0, 8220);
    EdgeExists(z, 0);
    assert !FirstTick(e, z, 7199, NextOutcome(e, z, 7199));
  }

  /** `15 * * * *` across a half-hour gap at 02:00 fires at 01:45, before the gap and at a reading it
      does not match: the second pass of the skipped 02:15 is taken for a real instant. */
  lemma HalfHourGapFiresEarly()
    ensures var z := Springing(1800);
            var r := NextOutcome(EveryHourAt(15), z, 6299);
            && r.Fires? && Utc(z, r.when) == 6300 && Local(z, 6300) == 6300
            && !Matches(EveryHourAt(15), 6300) && !FollowsElapsedTime(EveryHourAt(15), z)
  {
    hide Matches, NextOutcome, Local, Utc, Horizon, StartCursor, Between;
    var z, e := Springing(1800), EveryHourAt(15);
    SpringingIsValid(1800);
    EveryHourMatches(15, 8100);
    EveryHourMatches(15, 6300);
    assert Off(z, 0) == 0 && Off(z, 1) == 1800;
    ScanEndAt(z, 0, 6299);
    assert Ghostly(e, z, 0, 8100);
    GhostFiresNext(e, z, 0, 8100);
    GhostInstant(z, 0, 8100);
    assert !FirstTick(e, z, 6299, NextOutcome(e, z, 6299));
  }

  /** A zone three hours ahead of UTC until instant 0, when its clock goes back to UTC. */
  function ThreeHoursBack(): Zone { Zone(10800, [Transition(0, 0)]) }

  lemma BackAtUtc(u: int)
    requires u >= 0
    ensures Local(ThreeHoursBack(), u) == u
  {
  }

  /** `15 * * * *` after a fall-back of three hours, asked at 02:00 on the second pass, passes over 02:15
      although the zone has no gap. */
  lemma LongFallBackLosesAFire()
    ensures var z, e := ThreeHoursBack(), EveryHourAt(15);
            && ValidZone(z) && Modest(z) && Tick(e, z, 8100)
            && !MissesNothing(e, z, 7200, NextOutcome(e, z, 7200)) && !FollowsElapsedTime(e, z)
  {
    hide Matches, NextOutcome, Local, Utc, Horizon, StartCursor, Between, FireOf, FirstPass;
    var z, e := ThreeHoursBack(), EveryHourAt(15);
    assert Off(z, 0) == 10800 && Off(z, 1) == 0;
    EveryHourMatches(15, 8100);
    assert Overlooked(e, z, 7200, 0, 8100);
    OverlookedTicks(e, z, 7200, 0, 8100);
    forall v | 7200 < v < 8100 ensures !Firing(e, z, v) {
      BackAtUtc(v);
      EveryHourMatches(15, v);
      DueMeans(e, z, v);
    }
    BackAtUtc(7200);
    CursorWithinAMinute(e, 7200);
    FirstDayHasAHorizon(StartCursor(e, 7200));
    var _ := OverlookedIsMissed(e, z, 7200);
    assert !FirstTick(e, z, 7200, NextOutcome(e, z, 7200));
  }

  // ---- a gap too long to cross ---------------------------------------------------------------

  /** A zone ten hours behind UTC until instant 36000, when its clock skips a whole day, as one crossing the
      date line does. */
  function SkippingADay(): Zone { Zone(-36000, [Transition(36000, 50400)]) }

  /** Noon, on every day. */
  function DailyAtNoon(): Fields {
    Fields({0}, {0}, {12}, Between(1, 31), Between(1, 12), Between(0, 6),
           false, false, false, None, None, None, None)
  }

  /** `0 12 * * *` does not fire for the noon that was skipped: the day's end is not within 180 minutes. */
  lemma SkippedNoonNeverFires()
    ensures var z, e := SkippingADay(), DailyAtNoon();
            && ValidZone(z) && HourAnchored(e) && InGap(z, 0, 43200) && Matches(e, 43200)
            && FireOf(z, 43200) == None && !Due(e, z, 36000)
  {
    hide Local, Utc, FireOf, FirstPass, Matches, HourAnchored, DailyAtNoon, FloorMinute, EdgeInReach, MissedMatch;
    var z, e := SkippingADay(), DailyAtNoon();
    assert Off(z, 0) == -36000 && Off(z, 1) == 50400;
    NoonMatches(43200);
    NoonMatches(86400);
    NoonIsOutOfReach(0, 43200);
    GapFiresAtEdge(z, 0, 43200);
    EdgeExists(z, 0);
    DueMeans(e, z, 36000);
    forall i: nat, w ensures !MissedMatch(e, z, i, w) {
      NoonIsOutOfReach(i, w);
    }
  }

  lemma NoonIsOutOfReach(i: nat, w: int)
    ensures !MissedMatch(DailyAtNoon(), SkippingADay(), i, w)
    ensures !EdgeInReach(SkippingADay(), 0, 43200)
  {
    hide Matches, DailyAtNoon;
    NoonMatches(w);
    assert Off(SkippingADay(), 0) == -36000 && Off(SkippingADay(), 1) == 50400;
  }

  lemma NoonMatches(w: int)
    ensures HourAnchored(DailyAtNoon())
    ensures Matches(DailyAtNoon(), w) <==> w % 86400 == 43200
  {
    hide Between, DayOf, MonthOfDay;
    var e := DailyAtNoon();
    assert e.hours == {12};
    if Hour(w) == 12 && Minute(w) == 0 && Second(w) == 0 {
      NoonIs(w);
    }
    NoonReads(w);
  }

  lemma NoonIs(w: int)
    requires Hour(w) == 12 && Minute(w) == 0 && Second(w) == 0
    ensures w % 86400 == 43200
  {
    hide DayOf, Hour, Minute, Second;
    WallTimeParts(w);
  }

  lemma NoonReads(w: int)
    ensures w % 86400 == 43200 ==> Hour(w) == 12 && Minute(w) == 0 && Second(w) == 0
  {
    if w % 86400 == 43200 {
      assert w == 86400 * (w / 86400) + 43200;
      WallTimeRoundTrip(w / 86400, 12, 0, 0);
    }
  }
}

/** `next_after` over the three kinds of expression. */
module CronSchedule {
  import opened Wrappers
  import opened Calendar
  import opened Zones
  import opened CronExpression
  import opened CronWalk
  import opened CronRepeat
  import opened CronNext
  import opened Intervals

  datatype Schedule = OnFields(fields: Fields) | Every(seconds: int) | Once(delay: int)

  /** An exception, `None`, or the instant of the fire. */
  datatype Answer = Failed | Never | At(instant: int)

  /** Parsing rejects intervals that are not positive. */
  predicate ValidSchedule(s: Schedule) { s.Every? ==> s.seconds > 0 }

  function Instant(z: Zone, r: Outcome): Answer {
    match r
    case Raised => Failed
    case NoFire => Never
    case Fires(when) => At(Utc(z, when))
  }

  function Answered(s: Schedule, z: Zone, after: int, anchor: Option<int>): Answer
    requires ValidSchedule(s)
  {
    var base := if anchor.Some? then anchor.value else after;
    match s
    case OnFields(e) => Instant(z, NextOutcome(e, z, after))
    case Every(seconds) => At(EveryNext(base, seconds, after))
    case Once(delay) => if OnceNext(base, delay, after).None? then Never else At(base + delay)
  }

  /** `u` is the first point of the grid anchored at `base` after `after`. */
  ghost predicate FirstOnGrid(base: int, every: int, after: int, u: int) {
    after < u && OnGrid(base, every, u) && forall t :: OnGrid(base, every, t) && after < t ==> u <= t
  }

  /** What is promised about field expressions: the first fire, or none within five years, or an exception
      where the search starts on 29 February. */
  ghost predicate FieldAnswer(e: Fields, z: Zone, after: int, r: Answer) {
    var horizon := Horizon(StartCursor(e, Local(z, after)));
    match r
    case Failed => horizon.None?
    case Never => horizon.Some? && NoFiringBefore(e, z, after, horizon.value)
    case At(u) => horizon.Some? && NoFiringUntil(e, z, after, u) && Firing(e, z, u)
  }

  /** The first fire strictly after `after`: for `@every` the least grid point ahead, for `@once` the one
      moment unless it has passed, for fields the first firing instant where the zone is tame near `after`. */
  method NextAfter(s: Schedule, z: Zone, after: int, anchor: Option<int>) returns (r: Answer)
    requires ValidSchedule(s)
    ensures r == Answered(s, z, after, anchor)
    ensures s.Every? ==>
              r.At? && FirstOnGrid(if anchor.Some? then anchor.value else after, s.seconds, after, r.instant)
    ensures s.Once? ==>
              var moment := (if anchor.Some? then anchor.value else after) + s.delay;
              (r == Never <==> moment < after) && (r != Never ==> r == At(moment))
    ensures s.OnFields? && ValidZone(z) && NearestInRange(s.fields) && TameNear(s.fields, z, after) ==>
              FieldAnswer(s.fields, z, after, r)
  {
    hide NextOutcome, Local, Utc, Horizon, StartCursor, Firing, NoFiringUntil, NoFiringBefore, TameNear, ValidZone;
    var base := if anchor.Some? then anchor.value else after;
    match s
    case Every(seconds) =>
      r := At(EveryNext(base, seconds, after));
      EveryIsLeast(base, seconds, after);
    case Once(delay) =>
      r := if base + delay < after then Never else At(base + delay);
    case OnFields(e) =>
      var fire := NextFields(e, z, after);
      r := Instant(z, fire);
      if ValidZone(z) && NearestInRange(e) && TameNear(e, z, after) {
        NextIsLeastFiring(e, z, after);
      }
  }

  lemma WalkIsAhead(e: Fields, z: Zone, after: int)
    ensures WalkOutcome(e, z, after).Fires? ==> Utc(z, WalkOutcome(e, z, after).when) > after
  {
    hide Local, Utc, StartCursor, Horizon, FireOf, DateMatches, TimeMatches;
    var cur := StartCursor(e, Local(z, after));
    if Horizon(cur).Some? {
      HorizonIsLater(cur);
      var _ := ScanIsLeast(e, z, after, cur, Horizon(cur).value);
    }
  }

  lemma {:induction false} RepeatIsAhead(e: Fields, z: Zone, after: int, wall: int, left: nat)
    ensures ScanRepeat(e, z, after, wall, left).Fires? ==> Utc(z, ScanRepeat(e, z, after, wall, left).when) > after
    decreases left
  {
    hide Utc, FoldDiffers, MatchesWall, SecondAhead;
    if left == 0 {
    } else {
      SecondAheadIsLeast(e, z, after, wall, 0);
      RepeatIsAhead(e, z, after, wall + 60, left - 1);
    }
  }

  lemma NextIsAhead(e: Fields, z: Zone, after: int)
    ensures NextOutcome(e, z, after).Fires? ==> Utc(z, NextOutcome(e, z, after).when) > after
  {
    hide Local, Utc, WalkOutcome, ScanRepeat, OffsetAt, FloorMinute;
    WalkIsAhead(e, z, after);
    RepeatIsAhead(e, z, after, FloorMinute(Local(z, after - 7200)), 260);
  }

  /** Progress: for any expression, zone and anchor, a recurring fire is strictly after `after`, so feeding
      fires back never stalls; a one-shot is never in the past. */
  lemma FiresAreAhead(s: Schedule, z: Zone, after: int, anchor: Option<int>)
    requires ValidSchedule(s) && Answered(s, z, after, anchor).At?
    ensures Answered(s, z, after, anchor).instant >= after
    ensures !s.Once? ==> Answered(s, z, after, anchor).instant > after
  {
    hide NextOutcome, EveryNext, Utc;
    match s
    case OnFields(e) => NextIsAhead(e, z, after);
    case Every(seconds) =>
      EveryIsLeast(if anchor.Some? then anchor.value else after, seconds, after);
    case Once(delay) =>
  }
}

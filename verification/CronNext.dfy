/** The next fire of a field expression, and what it promises in real time. */
module CronNext {
  import opened Wrappers
  import opened Zones
  import opened CronExpression
  import opened CronWalk
  import opened CronDue
  import opened CronRepeat

  /** Whichever of the walk and the second-pass search comes first in real time. */
  function NextOutcome(e: Fields, z: Zone, after: int): Outcome {
    var primary := WalkOutcome(e, z, after);
    if HourAnchored(e) || primary == Raised then primary
    else
      var repeated := RepeatOutcome(e, z, after);
      match repeated
      case Raised => Raised
      case NoFire => primary
      case Fires(second) =>
        if primary == NoFire then repeated
        else if Utc(z, second) < Utc(z, primary.when) then repeated
        else primary
  }

  /** The next fire for a field expression. */
  method NextFields(e: Fields, z: Zone, after: int) returns (r: Outcome)
    ensures r == NextOutcome(e, z, after)
  {
    var primary := WalkWallClock(e, z, after);
    if primary == Raised || HourAnchored(e) {
      return primary;
    }
    var repeated := NextInRepeatedHour(e, z, after);
    if repeated == NoFire {
      return primary;
    }
    if repeated == Raised || primary == NoFire {
      return repeated;
    }
    return if Utc(z, repeated.when) < Utc(z, primary.when) then repeated else primary;
  }

  // ---- the instants an expression fires at ---------------------------------------------------

  /** The clock's reading at `u` satisfies every field. */
  ghost predicate Tick(e: Fields, z: Zone, u: int) {
    Matches(e, Local(z, u))
  }

  /** An hour-anchored expression fires when due; one that allows every hour also fires on the second
      pass of a repeated hour. */
  ghost predicate Firing(e: Fields, z: Zone, u: int) {
    Due(e, z, u) || (!HourAnchored(e) && Tick(e, z, u))
  }

  /** `w` lies in gap `i` and matches, its second-pass instant, which precedes the gap, is inside the
      two-hour window, and a search made just before that instant scans as far as `w`. */
  ghost predicate Ghostly(e: Fields, z: Zone, i: nat, w: int) {
    && i < |z.trans| && InGap(z, i, w) && Matches(e, w)
    && w - Off(z, i + 1) > z.trans[i].at - 7200 && w < ScanEnd(z, w - Off(z, i + 1) - 1)
  }

  /** The clock's actual reading at the second-pass instant of a wall time in gap `i`. */
  function GhostReading(z: Zone, i: nat, w: int): int
    requires i < |z.trans|
  {
    w - Off(z, i + 1) + Off(z, i)
  }

  /** The second-pass search made with `after` comes upon such a `w`, and the clock's reading at its
      second-pass instant does not match. */
  ghost predicate GhostAhead(e: Fields, z: Zone, after: int, i: nat, w: int) {
    && Ghostly(e, z, i, w) && Near(z, i, after) && after < w - Off(z, i + 1) && w < ScanEnd(z, after)
    && !Matches(e, GhostReading(z, i, w))
  }

  /** There is no such `w`. */
  ghost predicate HarmlessNear(e: Fields, z: Zone, after: int) {
    forall i: nat, w {:trigger GhostAhead(e, z, after, i, w)} :: !GhostAhead(e, z, after, i, w)
  }

  /** One of those instants precedes everything the expression fires for. */
  ghost predicate GhostComesFirst(e: Fields, z: Zone, after: int) {
    exists i: nat, w {:trigger GhostAhead(e, z, after, i, w)} ::
      GhostAhead(e, z, after, i, w) && forall v :: after < v <= w - Off(z, i + 1) ==> !Firing(e, z, v)
  }

  /** Transition `i` repeats the matching reading `w`, only its second pass is ahead of `after`, and the
      search made with `after` does not reach it. */
  ghost predicate Overlooked(e: Fields, z: Zone, after: int, i: nat, w: int) {
    && i < |z.trans| && Repeated(z, i, w) && Matches(e, w)
    && w - Off(z, i) <= after < w - Off(z, i + 1) && !InReach(z, i, after, w)
  }

  /** There is no such `w`. */
  ghost predicate NothingOverlooked(e: Fields, z: Zone, after: int) {
    forall i: nat, w {:trigger Overlooked(e, z, after, i, w)} :: !Overlooked(e, z, after, i, w)
  }

  /** The second pass of one precedes everything else the expression fires for. */
  ghost predicate OverlookedComesFirst(e: Fields, z: Zone, after: int) {
    exists i: nat, w {:trigger Overlooked(e, z, after, i, w)} ::
      Overlooked(e, z, after, i, w) && forall v :: after < v < w - Off(z, i + 1) ==> !Firing(e, z, v)
  }

  /** An hour-anchored expression, in any zone; or any expression where, near `after`, gaps are harmless and
      nothing is overlooked. Without transitions near `after` nothing is asked. */
  ghost predicate TameNear(e: Fields, z: Zone, after: int) {
    HourAnchored(e) || (ModestNear(z, after) && HarmlessNear(e, z, after) && NothingOverlooked(e, z, after))
  }

  /** Nothing the expression fires for lies between `after` and `u`. */
  ghost predicate NoFiringUntil(e: Fields, z: Zone, after: int, u: int) {
    after < u && forall v :: after < v < u ==> !Firing(e, z, v)
  }

  /** Nor between `after` and the horizon. */
  ghost predicate NoFiringBefore(e: Fields, z: Zone, after: int, horizon: int) {
    && (forall w, v :: Scheduled(e, z, w, v) && after < v ==> horizon <= w)
    && (!HourAnchored(e) ==> forall v :: after < v && Tick(e, z, v) ==> horizon <= Local(z, v))
  }

  /** `r` passes over nothing the expression fires for, and is an exception where there is no horizon. */
  ghost predicate MissesNothing(e: Fields, z: Zone, after: int, r: Outcome) {
    var horizon := Horizon(StartCursor(e, Local(z, after)));
    match r
    case Raised => horizon.None?
    case Fires(when) => horizon.Some? && NoFiringUntil(e, z, after, Utc(z, when))
    case NoFire => horizon.Some? && NoFiringBefore(e, z, after, horizon.value)
  }

  /** And `r`, if it is an instant, is itself one the expression fires at. */
  ghost predicate LeastFiring(e: Fields, z: Zone, after: int, r: Outcome) {
    MissesNothing(e, z, after, r) && (r.Fires? ==> Firing(e, z, Utc(z, r.when)))
  }

  // ---- second passes -------------------------------------------------------------------------

  /** An instant that is not the first pass of its reading lies just after a fall-back. */
  lemma SecondPass(z: Zone, u: int) returns (i: nat)
    requires ValidZone(z) && !FirstPass(z, u)
    ensures i < |z.trans| && Repeated(z, i, Local(z, u)) && Unsettled(z, i, Local(z, u))
    ensures u == Local(z, u) - Off(z, i + 1)
    ensures FireOf(z, Local(z, u)) == Some(Aware(Local(z, u), false))
    ensures Utc(z, Aware(Local(z, u), false)) == Local(z, u) - Off(z, i) < u
  {
    ReadingFires(z, u);
    ReadingIndex(z, u);
    var j, first := WallPosition(z, Local(z, u));
    i := j;
  }

  /** A second-pass instant read from a gap is an earlier instant of the old offset. */
  lemma GhostInstant(z: Zone, i: nat, w: int)
    requires ValidZone(z) && i < |z.trans| && InGap(z, i, w)
    ensures Local(z, w - Off(z, i + 1)) == GhostReading(z, i, w)
    ensures w - Off(z, i + 1) < z.trans[i].at
  {
    assert SoundAt(z, i) && SoundAt(z, i + 1);
    if i > 0 { Apart(z, i - 1, i); }
    UtcIndexIs(z, w - Off(z, i + 1), i);
  }

  /** The two instants that read a repeated wall time. */
  lemma BothPasses(z: Zone, i: nat, w: int)
    requires ValidZone(z) && i < |z.trans| && Repeated(z, i, w)
    ensures Local(z, w - Off(z, i)) == w && Local(z, w - Off(z, i + 1)) == w
    ensures !FirstPass(z, w - Off(z, i + 1))
  {
    assert SoundAt(z, i) && SoundAt(z, i + 1);
    if i > 0 { Apart(z, i - 1, i); }
    if i + 1 < |z.trans| { Apart(z, i, i + 1); }
    UtcIndexIs(z, w - Off(z, i), i);
    UtcIndexIs(z, w - Off(z, i + 1), i + 1);
  }

  /** What is overlooked fires, and is not due. */
  lemma OverlookedTicks(e: Fields, z: Zone, after: int, i: nat, w: int)
    requires ValidZone(z) && Overlooked(e, z, after, i, w)
    ensures Local(z, w - Off(z, i + 1)) == w && Tick(e, z, w - Off(z, i + 1)) && !Due(e, z, w - Off(z, i + 1))
  {
    hide Matches, Local, Utc, FireOf, FirstPass, InReach;
    var u := w - Off(z, i + 1);
    BothPasses(z, i, w);
    if Due(e, z, u) {
      var x :| Scheduled(e, z, x, u);
      ScheduledCases(e, z, x, u);
    }
  }

  /** Where something is overlooked at transition `i`, no other transition is near. */
  lemma OverlookedIsAlone(e: Fields, z: Zone, after: int, i: nat, w: int, j: nat)
    requires ValidZone(z) && ModestNear(z, after) && Overlooked(e, z, after, i, w) && j < |z.trans| && Near(z, j, after)
    ensures i == j
  {
    hide Matches, InReach;
    assert SoundAt(z, i) && SoundAt(z, i + 1);
    assert ModestAt(z, i);
    if i < j { Apart(z, i, j); }
    if j < i { Apart(z, j, i); }
  }

  /** Whatever the second-pass search returns shows a matching reading, or belongs to a gap. */
  lemma RepeatTicksOrIsGhost(e: Fields, z: Zone, after: int) returns (i: nat)
    requires ValidZone(z) && ModestNear(z, after) && NearestInRange(e) && RepeatOutcome(e, z, after) != NoFire
    ensures RepeatOutcome(e, z, after).Fires? && i < |z.trans|
    ensures var when := RepeatOutcome(e, z, after).when;
            && after < Utc(z, when) == when.wall - Off(z, i + 1)
            && (Tick(e, z, Utc(z, when)) || GhostAhead(e, z, after, i, when.wall))
  {
    hide Matches, Local, Utc, RepeatOutcome, ScanEnd;
    i := RepeatIsSound(e, z, after);
    var w := RepeatOutcome(e, z, after).when.wall;
    UnsettledCases(z, i, w);
    if InGap(z, i, w) {
      GhostInstant(z, i, w);
      ScanEndGrows(z, i, after, w - Off(z, i + 1) - 1);
      assert Ghostly(e, z, i, w);
    } else {
      BothPasses(z, i, w);
    }
  }

  /** A matching reading on its second pass, ahead of `after`, is found by the walk on its first pass
      or by the second-pass search, or is overlooked. */
  lemma SecondPassIsMetOrOverlooked(e: Fields, z: Zone, after: int, u: int) returns (i: nat)
    requires ValidZone(z) && ModestNear(z, after) && NearestInRange(e)
    requires Tick(e, z, u) && after < u && !Due(e, z, u)
    ensures i < |z.trans| && u == Local(z, u) - Off(z, i + 1)
    ensures || (exists v :: after < v < u && Scheduled(e, z, Local(z, u), v))
            || (RepeatOutcome(e, z, after).Fires? && Utc(z, RepeatOutcome(e, z, after).when) <= u)
            || Overlooked(e, z, after, i, Local(z, u))
  {
    hide Matches, Local, Utc, RepeatOutcome, FireOf, FirstPass, ScanStart;
    DueMeans(e, z, u);
    i := SecondPass(z, u);
    var w := Local(z, u);
    assert Scheduled(e, z, w, w - Off(z, i));
    if InReach(z, i, after, w) {
      InReachIsFound(e, z, after, i, w);
      FoundIsEarlier(e, z, after, i, w);
    }
  }

  /** What is found in reach of the near transition comes first in real time as on the clock. */
  lemma FoundIsEarlier(e: Fields, z: Zone, after: int, i: nat, w: int)
    requires ValidZone(z) && ModestNear(z, after) && NearestInRange(e) && i < |z.trans| && Near(z, i, after)
    requires RepeatOutcome(e, z, after).Fires? && RepeatOutcome(e, z, after).when.wall <= w
    ensures Utc(z, RepeatOutcome(e, z, after).when) <= w - Off(z, i + 1)
  {
    hide Matches, Utc, RepeatOutcome;
    var j := RepeatIsSound(e, z, after);
    if i < j { Apart(z, i, j); }
    if j < i { Apart(z, j, i); }
  }

  /** A matching reading that is due is scheduled as itself. */
  lemma DueTickIsScheduled(e: Fields, z: Zone, u: int)
    requires ValidZone(z) && Tick(e, z, u) && Due(e, z, u)
    ensures Scheduled(e, z, Local(z, u), u)
  {
    hide Matches, Local, Utc, FireOf, FirstPass;
    var w :| Scheduled(e, z, w, u);
    ScheduledCases(e, z, w, u);
    ReadingFires(z, u);
  }

  // ---- the main theorem ----------------------------------------------------------------------

  lemma BeyondHorizonIsFar(z: Zone, after: int, cur: int, w: int)
    requires ValidZone(z) && Local(z, after) < cur && Horizon(cur).Some?
    requires FireOf(z, w).Some? && Horizon(cur).value <= w
    ensures after + 86400 * 1000 < Utc(z, FireOf(z, w).value)
  {
    hide Horizon, Utc;
    HorizonIsLater(cur);
    var i, u := FireBounds(z, w);
    assert SoundAt(z, i) && SoundAt(z, UtcIndex(z, after));
    if i < |z.trans| { assert SoundAt(z, i + 1); }
  }

  lemma DueIsFar(e: Fields, z: Zone, after: int, cur: int, v: int)
    requires ValidZone(z) && Local(z, after) < cur && Horizon(cur).Some? && Due(e, z, v) && after < v
    requires forall w, x :: Scheduled(e, z, w, x) && after < x ==> Horizon(cur).value <= w
    ensures after + 86400 * 1000 < v
  {
    hide Local, Utc, FireOf, Horizon, Matches;
    var w :| Scheduled(e, z, w, v);
    BeyondHorizonIsFar(z, after, cur, w);
  }

  lemma RepeatIsSoon(e: Fields, z: Zone, after: int)
    requires ValidZone(z) && ModestNear(z, after) && NearestInRange(e) && RepeatOutcome(e, z, after).Fires?
    ensures Utc(z, RepeatOutcome(e, z, after).when) <= after + 200000
  {
    hide RepeatOutcome, Utc;
    var i := RepeatIsSound(e, z, after);
    ScanEndAt(z, i, after);
    assert ModestAt(z, i);
  }

  /** The first firing instant among those up to `v`. */
  lemma FirstFiring(e: Fields, z: Zone, after: int, v: int) returns (u: int)
    requires after < v && Firing(e, z, v)
    ensures after < u <= v && Firing(e, z, u) && NoFiringUntil(e, z, after, u)
    decreases v - after
  {
    hide Firing;
    if x :| after < x < v && Firing(e, z, x) {
      u := FirstFiring(e, z, after, x);
    } else {
      u := v;
    }
  }

  /** An early firing instant before the answers of the walk and of the second-pass search shows that
      something is overlooked. */
  lemma SkippedIsOverlooked(e: Fields, z: Zone, after: int, v: int)
    requires ValidZone(z) && NearestInRange(e) && ModestNear(z, after) && !HourAnchored(e)
    requires after < v && Firing(e, z, v) && WalkOutcome(e, z, after) != Raised
    requires WalkOutcome(e, z, after) == NoFire ==> v <= after + 86400 * 1000
    requires WalkOutcome(e, z, after).Fires? ==> v < Utc(z, WalkOutcome(e, z, after).when)
    requires RepeatOutcome(e, z, after).Fires? ==> v < Utc(z, RepeatOutcome(e, z, after).when)
    ensures OverlookedComesFirst(e, z, after)
  {
    hide Local, Utc, RepeatOutcome, WalkOutcome, StartCursor, Horizon, Tick, Due, Matches, FireOf, Overlooked;
    WalkIsLeastDue(e, z, after);
    var cur := StartCursor(e, Local(z, after));
    var u := FirstFiring(e, z, after, v);
    if Due(e, z, u) {
      if WalkOutcome(e, z, after) == NoFire {
        StartIsAhead(e, Local(z, after));
        DueIsFar(e, z, after, cur, u);
      }
    } else {
      var i := SecondPassIsMetOrOverlooked(e, z, after, u);
      if x :| after < x < u && Scheduled(e, z, Local(z, u), x) {
        ScheduledIsDue(e, z, Local(z, u), x);
        assert Firing(e, z, x);
      }
      assert Overlooked(e, z, after, i, Local(z, u));
    }
  }

  lemma StartIsAhead(e: Fields, reading: int)
    ensures reading < StartCursor(e, reading)
  {
  }

  lemma ScheduledIsDue(e: Fields, z: Zone, w: int, u: int)
    requires Scheduled(e, z, w, u)
    ensures Due(e, z, u)
  {
  }

  // ---- the main theorems ---------------------------------------------------------------------

  /** What is overlooked is not returned, and lies before the horizon. */
  lemma OverlookedIsNotReturned(e: Fields, z: Zone, after: int, i: nat, w: int)
    requires ValidZone(z) && NearestInRange(e) && ModestNear(z, after) && !HourAnchored(e)
    requires Overlooked(e, z, after, i, w) && Horizon(StartCursor(e, Local(z, after))).Some?
    ensures NextOutcome(e, z, after) != Raised && w < Horizon(StartCursor(e, Local(z, after))).value
    ensures NextOutcome(e, z, after).Fires? ==> Utc(z, NextOutcome(e, z, after).when) != w - Off(z, i + 1)
  {
    hide Local, Utc, RepeatOutcome, WalkOutcome, StartCursor, Horizon, Matches, ScanStart, Unsettled;
    WalkIsLeastDue(e, z, after);
    OverlookedTicks(e, z, after, i, w);
    OverlookedIsNear(e, z, after, i, w);
    if RepeatOutcome(e, z, after) != NoFire {
      var j := RepeatIsSound(e, z, after);
      OverlookedIsAlone(e, z, after, i, w, j);
    }
  }

  lemma OverlookedIsNear(e: Fields, z: Zone, after: int, i: nat, w: int)
    requires ValidZone(z) && Overlooked(e, z, after, i, w) && Horizon(StartCursor(e, Local(z, after))).Some?
    ensures w < Horizon(StartCursor(e, Local(z, after))).value
  {
    hide Local, StartCursor, Horizon, Matches, InReach;
    StartIsAhead(e, Local(z, after));
    HorizonIsLater(StartCursor(e, Local(z, after)));
    ReadingIsClose(z, after);
    assert SoundAt(z, i) && SoundAt(z, i + 1);
  }

  lemma ReadingIsClose(z: Zone, u: int)
    requires ValidZone(z)
    ensures u - 86400 < Local(z, u) < u + 86400
  {
    assert SoundAt(z, UtcIndex(z, u));
  }

  /** For an expression that allows every hour, the next fire passes over no firing instant unless what is
      overlooked comes first: then it passes over that. */
  lemma MissesNothingIff(e: Fields, z: Zone, after: int)
    requires ValidZone(z) && NearestInRange(e) && ModestNear(z, after) && !HourAnchored(e)
    ensures MissesNothing(e, z, after, NextOutcome(e, z, after)) <==>
      Horizon(StartCursor(e, Local(z, after))).None? || !OverlookedComesFirst(e, z, after)
  {
    hide Local, Utc, NextOutcome, StartCursor, Horizon, Firing, OverlookedComesFirst, NoFiringUntil, NoFiringBefore;
    if Horizon(StartCursor(e, Local(z, after))).None? {
      NoHorizonRaises(e, z, after);
    } else if OverlookedComesFirst(e, z, after) {
      var _ := OverlookedIsMissed(e, z, after);
    } else {
      RestMissesNothing(e, z, after);
    }
  }

  lemma NoHorizonRaises(e: Fields, z: Zone, after: int)
    requires ValidZone(z) && NearestInRange(e) && Horizon(StartCursor(e, Local(z, after))).None?
    ensures NextOutcome(e, z, after) == Raised
  {
    hide Local, Utc, RepeatOutcome, WalkOutcome, StartCursor, Horizon;
    WalkIsLeastDue(e, z, after);
  }

  lemma OverlookedIsMissed(e: Fields, z: Zone, after: int) returns (u: int)
    requires ValidZone(z) && NearestInRange(e) && ModestNear(z, after) && !HourAnchored(e)
    requires OverlookedComesFirst(e, z, after) && Horizon(StartCursor(e, Local(z, after))).Some?
    ensures after < u && Tick(e, z, u) && Local(z, u) < Horizon(StartCursor(e, Local(z, after))).value
    ensures NextOutcome(e, z, after) != Raised
    ensures NextOutcome(e, z, after).Fires? ==> u < Utc(z, NextOutcome(e, z, after).when)
    ensures !MissesNothing(e, z, after, NextOutcome(e, z, after))
  {
    hide Local, Utc, RepeatOutcome, WalkOutcome, StartCursor, Horizon, Tick, Due, Matches;
    var i: nat, w :| Overlooked(e, z, after, i, w) && forall v :: after < v < w - Off(z, i + 1) ==> !Firing(e, z, v);
    u := w - Off(z, i + 1);
    OverlookedTicks(e, z, after, i, w);
    OverlookedIsNotReturned(e, z, after, i, w);
    assert Firing(e, z, u);
    WalkIsLeastDue(e, z, after);
    if NextOutcome(e, z, after).Fires? {
      NoGhostBesideOverlooked(e, z, after, i, w);
      assert Firing(e, z, Utc(z, NextOutcome(e, z, after).when));
    }
  }

  lemma NoGhostBesideOverlooked(e: Fields, z: Zone, after: int, i: nat, w: int)
    requires ValidZone(z) && NearestInRange(e) && ModestNear(z, after) && Overlooked(e, z, after, i, w)
    ensures RepeatOutcome(e, z, after) != NoFire ==>
      RepeatOutcome(e, z, after).Fires? && Tick(e, z, Utc(z, RepeatOutcome(e, z, after).when))
      && after < Utc(z, RepeatOutcome(e, z, after).when)
  {
    hide Local, Utc, RepeatOutcome, Tick, Matches, InReach;
    if RepeatOutcome(e, z, after) != NoFire {
      var j := RepeatTicksOrIsGhost(e, z, after);
      if GhostAhead(e, z, after, j, RepeatOutcome(e, z, after).when.wall) {
        GhostExcludesOverlooked(e, z, after, j, RepeatOutcome(e, z, after).when.wall, i, w);
      }
    }
  }

  lemma GhostExcludesOverlooked(e: Fields, z: Zone, after: int, j: nat, x: int, i: nat, w: int)
    requires ValidZone(z) && ModestNear(z, after) && GhostAhead(e, z, after, j, x)
    ensures !Overlooked(e, z, after, i, w)
  {
    hide Matches, InReach, ScanEnd;
    if Overlooked(e, z, after, i, w) {
      OverlookedIsAlone(e, z, after, i, w, j);
    }
  }

  lemma RestMissesNothing(e: Fields, z: Zone, after: int)
    requires ValidZone(z) && NearestInRange(e) && ModestNear(z, after) && !HourAnchored(e)
    requires !OverlookedComesFirst(e, z, after) && Horizon(StartCursor(e, Local(z, after))).Some?
    ensures MissesNothing(e, z, after, NextOutcome(e, z, after))
  {
    hide Local, Utc, RepeatOutcome, WalkOutcome, StartCursor, Horizon, Tick, Due, Matches, OverlookedComesFirst;
    WalkIsLeastDue(e, z, after);
    if RepeatOutcome(e, z, after) != NoFire {
      var _ := RepeatTicksOrIsGhost(e, z, after);
      RepeatIsSoon(e, z, after);
    }
    if NextOutcome(e, z, after).Fires? {
      forall v | after < v < Utc(z, NextOutcome(e, z, after).when) ensures !Firing(e, z, v) {
        if Firing(e, z, v) {
          SkippedIsOverlooked(e, z, after, v);
        }
      }
    } else {
      forall v | after < v && Tick(e, z, v)
        ensures Horizon(StartCursor(e, Local(z, after))).value <= Local(z, v)
      {
        SilenceIsRight(e, z, after, v);
      }
    }
  }

  /** Where both report nothing, a matching reading ahead is beyond the horizon. */
  lemma SilenceIsRight(e: Fields, z: Zone, after: int, v: int)
    requires ValidZone(z) && NearestInRange(e) && ModestNear(z, after) && !HourAnchored(e)
    requires WalkOutcome(e, z, after) == NoFire && RepeatOutcome(e, z, after) == NoFire
    requires !OverlookedComesFirst(e, z, after) && after < v && Tick(e, z, v)
    ensures Horizon(StartCursor(e, Local(z, after))).Some?
    ensures Horizon(StartCursor(e, Local(z, after))).value <= Local(z, v)
  {
    hide Local, Utc, RepeatOutcome, WalkOutcome, StartCursor, Horizon, Tick, Due, Matches, Scheduled;
    hide OverlookedComesFirst, Overlooked;
    WalkIsLeastDue(e, z, after);
    if Due(e, z, v) {
      DueTickIsScheduled(e, z, v);
    } else {
      var i := SecondPassIsMetOrOverlooked(e, z, after, v);
      if Overlooked(e, z, after, i, Local(z, v)) {
        OverlookedIsSoon(e, z, after, i, Local(z, v));
        SkippedIsOverlooked(e, z, after, v);
      }
    }
  }

  lemma OverlookedIsSoon(e: Fields, z: Zone, after: int, i: nat, w: int)
    requires ValidZone(z) && Overlooked(e, z, after, i, w)
    ensures w - Off(z, i + 1) <= after + 200000
  {
    hide Matches, InReach;
    assert SoundAt(z, i) && SoundAt(z, i + 1);
  }

  /** Where the transitions near `after` overlook nothing, the next fire is ahead of `after` and passes over
      no firing instant; `None` means none before the horizon, and an exception happens exactly when the
      search would start on 29 February. */
  lemma NextMissesNothing(e: Fields, z: Zone, after: int)
    requires ValidZone(z) && NearestInRange(e)
    requires HourAnchored(e) || (ModestNear(z, after) && NothingOverlooked(e, z, after))
    ensures MissesNothing(e, z, after, NextOutcome(e, z, after))
    ensures HourAnchored(e) ==> LeastFiring(e, z, after, NextOutcome(e, z, after))
  {
    hide Local, Utc, RepeatOutcome, WalkOutcome, StartCursor, Horizon, Tick, Scheduled, Due, Overlooked;
    if HourAnchored(e) {
      WalkIsLeastDue(e, z, after);
    } else {
      MissesNothingIff(e, z, after);
    }
  }

  /** A result that is no firing instant is the second-pass instant of a wall time inside a gap, and comes
      before everything the expression fires for. */
  lemma FalseFireIsGhost(e: Fields, z: Zone, after: int)
    requires ValidZone(z) && NearestInRange(e) && ModestNear(z, after) && !HourAnchored(e)
    requires NextOutcome(e, z, after).Fires? && !Firing(e, z, Utc(z, NextOutcome(e, z, after).when))
    ensures GhostComesFirst(e, z, after)
  {
    hide Local, Utc, RepeatOutcome, WalkOutcome, StartCursor, Horizon, Tick, Scheduled, Due, GhostAhead, Overlooked;
    WalkIsLeastDue(e, z, after);
    var i := RepeatTicksOrIsGhost(e, z, after);
    var w := RepeatOutcome(e, z, after).when.wall;
    assert GhostAhead(e, z, after, i, w);
    forall i': nat, w' ensures !Overlooked(e, z, after, i', w') {
      GhostExcludesOverlooked(e, z, after, i, w, i', w');
    }
    MissesNothingIff(e, z, after);
  }

  /** Where such an instant comes first, the result is one. */
  lemma GhostIsFalseFire(e: Fields, z: Zone, after: int)
    requires ValidZone(z) && NearestInRange(e) && ModestNear(z, after) && !HourAnchored(e)
    requires GhostComesFirst(e, z, after) && Horizon(StartCursor(e, Local(z, after))).Some?
    ensures NextOutcome(e, z, after).Fires? && !Firing(e, z, Utc(z, NextOutcome(e, z, after).when))
  {
    hide Local, Utc, RepeatOutcome, WalkOutcome, StartCursor, Horizon, Tick, Scheduled, Due, Matches, ScanEnd;
    WalkIsLeastDue(e, z, after);
    var i: nat, w :| GhostAhead(e, z, after, i, w) && forall v :: after < v <= w - Off(z, i + 1) ==> !Firing(e, z, v);
    UnsettledCases(z, i, w);
    GhostIsInReach(e, z, after, i, w);
    InReachIsFound(e, z, after, i, w);
    FoundIsEarlier(e, z, after, i, w);
    var _ := RepeatTicksOrIsGhost(e, z, after);
  }

  lemma GhostIsInReach(e: Fields, z: Zone, after: int, i: nat, w: int)
    requires ValidZone(z) && GhostAhead(e, z, after, i, w)
    ensures InReach(z, i, after, w)
  {
    hide Matches;
    NearIndices(z, i, after);
  }

  /** For an expression that allows every hour, the result is the least firing instant after `after` unless
      a match inside a gap has its second-pass instant before every firing instant, and is returned, or the
      first firing instant is overlooked. */
  lemma NextIsLeastFiringIff(e: Fields, z: Zone, after: int)
    requires ValidZone(z) && NearestInRange(e) && ModestNear(z, after) && !HourAnchored(e)
    ensures LeastFiring(e, z, after, NextOutcome(e, z, after)) <==>
      || Horizon(StartCursor(e, Local(z, after))).None?
      || (!GhostComesFirst(e, z, after) && !OverlookedComesFirst(e, z, after))
  {
    hide Local, Utc, NextOutcome, StartCursor, Horizon, Firing, GhostComesFirst, OverlookedComesFirst;
    hide NoFiringUntil, NoFiringBefore;
    MissesNothingIff(e, z, after);
    if Horizon(StartCursor(e, Local(z, after))).None? {
      NoHorizonRaises(e, z, after);
    } else if GhostComesFirst(e, z, after) {
      GhostIsFalseFire(e, z, after);
    } else if NextOutcome(e, z, after).Fires? && !Firing(e, z, Utc(z, NextOutcome(e, z, after).when)) {
      FalseFireIsGhost(e, z, after);
    }
  }

  /** So the next fire is the least firing instant for hour-anchored expressions in every zone, and for the
      others where the transitions near `after` are tame. */
  lemma NextIsLeastFiring(e: Fields, z: Zone, after: int)
    requires ValidZone(z) && NearestInRange(e) && TameNear(e, z, after)
    ensures LeastFiring(e, z, after, NextOutcome(e, z, after))
  {
    hide NextOutcome, StartCursor, Horizon, Firing, LeastFiring, MissesNothing, GhostAhead, Overlooked;
    if HourAnchored(e) {
      NextMissesNothing(e, z, after);
    } else {
      NextIsLeastFiringIff(e, z, after);
    }
  }

  /** Where the walk and the second-pass search agree on the instant, the answer is the walk's. */
  lemma TiesGoToTheWalk(e: Fields, z: Zone, after: int)
    requires NextOutcome(e, z, after).Fires? && WalkOutcome(e, z, after).Fires?
    requires Utc(z, NextOutcome(e, z, after).when) == Utc(z, WalkOutcome(e, z, after).when)
    ensures NextOutcome(e, z, after) == WalkOutcome(e, z, after)
  {
    hide Utc, RepeatOutcome, WalkOutcome;
  }

  /** The time returned is what the clock reads at its instant, with the fold bit set exactly on a second pass;
      or it is a wall time inside a gap, on its second pass. */
  lemma NextReadsTheClock(e: Fields, z: Zone, after: int)
    requires ValidZone(z) && NearestInRange(e) && (HourAnchored(e) || ModestNear(z, after))
    requires NextOutcome(e, z, after).Fires?
    ensures var when := NextOutcome(e, z, after).when;
            || (Local(z, Utc(z, when)) == when.wall && (when.fold <==> !FirstPass(z, Utc(z, when))))
            || (!HourAnchored(e) && when.fold && exists i: nat :: i < |z.trans| && InGap(z, i, when.wall))
  {
    hide Local, Utc, RepeatOutcome, WalkOutcome, StartCursor, Horizon, Matches, FirstPass, InReach, Unsettled;
    WalkIsLeastDue(e, z, after);
    if NextOutcome(e, z, after) == WalkOutcome(e, z, after) {
      var u := Utc(z, WalkOutcome(e, z, after).when);
      var w :| Scheduled(e, z, w, u);
      ScheduledCases(e, z, w, u);
    } else {
      var i := RepeatIsSound(e, z, after);
      var w := RepeatOutcome(e, z, after).when.wall;
      UnsettledCases(z, i, w);
      if !InGap(z, i, w) {
        BothPasses(z, i, w);
      }
    }
  }

  // ---- short fall-backs and long ones --------------------------------------------------------

  /** No transition within three days of `after` moves the clock back by more than two hours. */
  ghost predicate ShortNear(z: Zone, after: int) {
    forall i: nat {:trigger ShortAt(z, i)} ::
      i < |z.trans| && after - 259200 <= z.trans[i].at <= after + 259200 ==> ShortAt(z, i)
  }

  predicate ShortAt(z: Zone, i: nat)
    requires i < |z.trans|
  {
    Off(z, i) - Off(z, i + 1) <= 7200
  }

  /** Fall-backs of at most two hours overlook nothing. */
  lemma ShortOverlooksNothing(e: Fields, z: Zone, after: int)
    requires ValidZone(z) && ShortNear(z, after)
    ensures NothingOverlooked(e, z, after)
  {
    hide Matches, InReach;
    forall i: nat, w ensures !Overlooked(e, z, after, i, w) {
      if Overlooked(e, z, after, i, w) {
        assert SoundAt(z, i) && SoundAt(z, i + 1);
        assert ShortAt(z, i);
        ShortFallBackIsInReach(z, i, after, w);
      }
    }
  }

  /** A fall-back of more than two hours and a minute overlooks every match it repeats, just before its
      second pass. */
  lemma LongOverlooksEverything(e: Fields, z: Zone, i: nat, w: int)
    requires ValidZone(z) && i < |z.trans| && Off(z, i) - Off(z, i + 1) > 7260
    requires Repeated(z, i, w) && Matches(e, w)
    ensures Overlooked(e, z, w - Off(z, i + 1) - 1, i, w)
  {
    hide Matches, InReach;
    LongFallBackIsOutOfReach(z, i, w);
  }
}

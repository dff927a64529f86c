/** The second pass of a repeated hour, which the wall-clock walk cannot represent. */
module CronRepeat {
  import opened Calendar
  import opened Wrappers
  import opened Zones
  import opened CronExpression
  import opened CronWalk

  /** Whether a wall-clock minute satisfies every field but seconds. */
  function MatchesWall(e: Fields, wall: int): Verdict {
    if DateMatches(e, wall) == Match
    then (if Hour(wall) in e.hours && Minute(wall) in e.minutes then Match else NoMatch)
    else DateMatches(e, wall)
  }

  /** The zone gives `w` one offset on its first pass and another on its second. */
  predicate FoldDiffers(z: Zone, w: int) {
    WallOffset(z, w, false) != WallOffset(z, w, true)
  }

  /** The least allowed second from `s` on whose second pass, in the minute `wall`, is still ahead. */
  function SecondAhead(e: Fields, z: Zone, after: int, wall: int, s: nat): (found: Option<int>)
    decreases 60 - s
  {
    if s >= 60 then None
    else if s in e.seconds && Utc(z, Aware(wall + s, true)) > after then Some(wall + s)
    else SecondAhead(e, z, after, wall, s + 1)
  }

  /** The scan of `left` minutes from `wall` on. */
  function ScanRepeat(e: Fields, z: Zone, after: int, wall: int, left: nat): Outcome
    decreases left, wall
  {
    if left == 0 then NoFire
    else if FoldDiffers(z, wall) && MatchesWall(e, wall) == Raises then Raised
    else if FoldDiffers(z, wall) && MatchesWall(e, wall) == Match && SecondAhead(e, z, after, wall, 0).Some?
    then Fires(Aware(SecondAhead(e, z, after, wall, 0).value, true))
    else ScanRepeat(e, z, after, wall + 60, left - 1)
  }

  function RepeatOutcome(e: Fields, z: Zone, after: int): Outcome {
    if OffsetAt(z, after - 7200) == OffsetAt(z, after + 7200) then NoFire
    else ScanRepeat(e, z, after, FloorMinute(Local(z, after - 7200)), 260)
  }

  /** The next fire in the second pass of a fall-back hour. */
  method NextInRepeatedHour(e: Fields, z: Zone, after: int) returns (r: Outcome)
    ensures r == RepeatOutcome(e, z, after)
  {
    hide MatchesWall, OffsetAt, WallOffset, Local, Utc, FloorMinute;
    var beforeOff := OffsetAt(z, after - 7200);
    var laterOff := OffsetAt(z, after + 7200);
    if beforeOff == laterOff {
      return NoFire;
    }
    var wall := FloorMinute(Local(z, after - 7200));
    ghost var start := wall;
    for i := 0 to 260
      invariant ScanRepeat(e, z, after, start, 260) == ScanRepeat(e, z, after, wall, 260 - i)
    {
      if WallOffset(z, wall, false) != WallOffset(z, wall, true) {
        var matched := MatchesWall(e, wall);
        if matched == Raises {
          return Raised;
        }
        if matched == Match {
          for s := 0 to 60
            invariant SecondAhead(e, z, after, wall, 0) == SecondAhead(e, z, after, wall, s)
          {
            if s in e.seconds && Utc(z, Aware(wall + s, true)) > after {
              return Fires(Aware(wall + s, true));
            }
          }
        }
      }
      wall := wall + 60;
    }
    return NoFire;
  }

  // ---- what the scan finds -------------------------------------------------------------------

  /** `w` is a matching time, in a minute with two offsets, whose second pass is still ahead. */
  ghost predicate Hit(e: Fields, z: Zone, after: int, w: int) {
    FoldDiffers(z, FloorMinute(w)) && Matches(e, w) && Utc(z, Aware(w, true)) > after
  }

  lemma MinuteParts(e: Fields, wall: int, s: int)
    requires wall % 60 == 0 && 0 <= s < 60
    ensures FloorMinute(wall + s) == wall && Second(wall + s) == s
    ensures Matches(e, wall + s) <==> MatchesWall(e, wall) == Match && s in e.seconds
  {
    hide Hour, Minute, DayOf;
    assert (wall + s) % 60 == s;
    SameMinuteUntilNext(wall, wall + s);
  }

  lemma {:induction false} SecondAheadIsLeast(e: Fields, z: Zone, after: int, wall: int, s: nat)
    requires s <= 60
    ensures match SecondAhead(e, z, after, wall, s)
            case None => forall t :: s <= t < 60 && t in e.seconds ==> Utc(z, Aware(wall + t, true)) <= after
            case Some(w) =>
              && s <= w - wall < 60 && w - wall in e.seconds && Utc(z, Aware(w, true)) > after
              && forall t :: s <= t < w - wall && t in e.seconds ==> Utc(z, Aware(wall + t, true)) <= after
    decreases 60 - s
  {
    hide Utc;
    if s == 60 || (s in e.seconds && Utc(z, Aware(wall + s, true)) > after) {
    } else {
      SecondAheadIsLeast(e, z, after, wall, s + 1);
    }
  }

  /** One minute of the scan: `w` is its least hit, or it has none. */
  lemma MinuteScan(e: Fields, z: Zone, after: int, wall: int)
    requires NearestInRange(e) && wall % 60 == 0 && FoldDiffers(z, wall)
    ensures MatchesWall(e, wall) != Raises
    ensures match (if MatchesWall(e, wall) == Match then SecondAhead(e, z, after, wall, 0) else None)
            case None => forall w :: wall <= w < wall + 60 ==> !Hit(e, z, after, w)
            case Some(w) => wall <= w < wall + 60 && Hit(e, z, after, w)
                            && forall v :: wall <= v < w ==> !Hit(e, z, after, v)
  {
    hide Utc, SecondAhead, FoldDiffers, Matches, FloorMinute, Second, DayMatches, Month, Hour, Minute;
    NothingRaises(e, DayOf(wall));
    SecondAheadIsLeast(e, z, after, wall, 0);
    forall w | wall <= w < wall + 60
      ensures FloorMinute(w) == wall
      ensures Matches(e, w) <==> MatchesWall(e, wall) == Match && w - wall in e.seconds
    {
      MinuteParts(e, wall, w - wall);
    }
    forall w | wall <= w < wall + 60 && w - wall in e.seconds
      ensures Utc(z, Aware(wall + (w - wall), true)) == Utc(z, Aware(w, true))
    {
    }
  }

  /** The scan returns its least hit, and nothing only when there is none. */
  lemma {:induction false} ScanRepeatIsLeast(e: Fields, z: Zone, after: int, wall: int, left: nat)
    requires NearestInRange(e) && wall % 60 == 0
    ensures match ScanRepeat(e, z, after, wall, left)
            case Raised => false
            case NoFire => forall w :: wall <= w < wall + 60 * left ==> !Hit(e, z, after, w)
            case Fires(when) =>
              && when.fold && wall <= when.wall < wall + 60 * left && Hit(e, z, after, when.wall)
              && forall v :: wall <= v < when.wall ==> !Hit(e, z, after, v)
    decreases left
  {
    hide Utc, SecondAhead, FoldDiffers, Matches, FloorMinute, MatchesWall;
    if left == 0 {
    } else {
      if FoldDiffers(z, wall) {
        MinuteScan(e, z, after, wall);
      } else {
        forall w | wall <= w < wall + 60 ensures !Hit(e, z, after, w) {
          MinuteParts(e, wall, w - wall);
        }
      }
      ScanRepeatIsLeast(e, z, after, wall + 60, left - 1);
    }
  }

  // ---- where two offsets differ --------------------------------------------------------------

  /** Transition `i` gives wall time `w` two offsets: it is skipped or repeated there. */
  predicate Unsettled(z: Zone, i: nat, w: int)
    requires i < |z.trans|
  {
    WallStart(z, i, true) <= w < WallStart(z, i, false)
  }

  lemma UnsettledCases(z: Zone, i: nat, w: int)
    requires i < |z.trans|
    ensures Unsettled(z, i, w) <==> InGap(z, i, w) || Repeated(z, i, w)
  {
  }

  lemma UnsettledIndices(z: Zone, i: nat, w: int)
    requires ValidZone(z) && i < |z.trans| && Unsettled(z, i, w)
    ensures WallIndex(z, w, false) == i && WallIndex(z, w, true) == i + 1
    ensures FoldDiffers(z, w)
  {
    assert SoundAt(z, i) && SoundAt(z, i + 1);
    if i > 0 {
      assert SoundAt(z, i - 1);
      Apart(z, i - 1, i);
    }
    if i + 1 < |z.trans| {
      assert SoundAt(z, i + 2);
      Apart(z, i, i + 1);
    }
    WallIndexIs(z, w, false, i);
    WallIndexIs(z, w, true, i + 1);
  }

  lemma DiffersIffUnsettled(z: Zone, w: int) returns (i: nat)
    requires ValidZone(z) && FoldDiffers(z, w)
    ensures i < |z.trans| && Unsettled(z, i, w)
  {
    i := WallIndex(z, w, false);
    if i == |z.trans| || w < WallStart(z, i, true) {
      WallIndexIs(z, w, true, i);
    }
  }

  lemma FloorKeepsSide(t: int, w: int)
    requires WholeMinutes(t)
    ensures t <= FloorMinute(w) <==> t <= w
  {
    assert t <= w ==> t / 60 <= w / 60;
  }

  lemma WallStartWhole(z: Zone, i: nat, fold: bool)
    requires ValidZone(z) && i < |z.trans|
    ensures WholeMinutes(WallStart(z, i, fold))
  {
    assert SoundAt(z, i) && SoundAt(z, i + 1);
  }

  lemma UnsettledByTheMinute(z: Zone, i: nat, w: int)
    requires ValidZone(z) && i < |z.trans|
    ensures Unsettled(z, i, FloorMinute(w)) <==> Unsettled(z, i, w)
  {
    hide WallStart, FloorMinute, WholeMinutes;
    WallStartWhole(z, i, true);
    WallStartWhole(z, i, false);
    FloorKeepsSide(WallStart(z, i, true), w);
    FloorKeepsSide(WallStart(z, i, false), w);
  }

  /** A hit at transition `i` is a matching wall time there whose second pass is ahead. */
  lemma HitMeans(e: Fields, z: Zone, after: int, i: nat, w: int)
    requires ValidZone(z) && i < |z.trans| && Unsettled(z, i, w)
    ensures Utc(z, Aware(w, true)) == w - Off(z, i + 1)
    ensures Hit(e, z, after, w) <==> Matches(e, w) && w - Off(z, i + 1) > after
  {
    hide Matches, FloorMinute;
    UnsettledByTheMinute(z, i, w);
    UnsettledIndices(z, i, w);
    UnsettledIndices(z, i, FloorMinute(w));
  }

  // ---- how far the window and the scan reach -------------------------------------------------

  /** Over transition `i`, and over it and the next together, the clock goes back by at most 36 hours. */
  predicate ModestAt(z: Zone, i: nat)
    requires i < |z.trans|
  {
    && Off(z, i) - Off(z, i + 1) <= 129600
    && (i + 1 < |z.trans| ==> Off(z, i) - Off(z, i + 2) <= 129600)
  }

  ghost predicate Modest(z: Zone) {
    forall i: nat {:trigger ModestAt(z, i)} :: i < |z.trans| ==> ModestAt(z, i)
  }

  /** Every transition within three days of `after` is modest. */
  ghost predicate ModestNear(z: Zone, after: int) {
    forall i: nat {:trigger ModestAt(z, i)} ::
      i < |z.trans| && after - 259200 <= z.trans[i].at <= after + 259200 ==> ModestAt(z, i)
  }

  lemma ModestIsModestNear(z: Zone, after: int)
    requires Modest(z)
    ensures ModestNear(z, after)
  {
  }

  /** `after` lies within two hours of transition `i`. */
  predicate Near(z: Zone, i: nat, after: int)
    requires i < |z.trans|
  {
    z.trans[i].at - 7200 <= after < z.trans[i].at + 7200
  }

  lemma NearIndices(z: Zone, i: nat, after: int)
    requires ValidZone(z) && i < |z.trans| && Near(z, i, after)
    ensures UtcIndex(z, after - 7200) == i && UtcIndex(z, after + 7200) == i + 1
  {
    if i > 0 { Apart(z, i - 1, i); }
    if i + 1 < |z.trans| { Apart(z, i, i + 1); }
    UtcIndexIs(z, after - 7200, i);
    UtcIndexIs(z, after + 7200, i + 1);
  }

  lemma OffsetsDifferNear(z: Zone, after: int) returns (i: nat)
    requires ValidZone(z) && OffsetAt(z, after - 7200) != OffsetAt(z, after + 7200)
    ensures i < |z.trans| && Near(z, i, after)
  {
    i := UtcIndex(z, after - 7200);
    if i == |z.trans| || after + 7200 < z.trans[i].at {
      UtcIndexIs(z, after + 7200, i);
    }
  }

  function ScanStart(z: Zone, after: int): int { FloorMinute(Local(z, after - 7200)) }

  function ScanEnd(z: Zone, after: int): int { ScanStart(z, after) + 15600 }

  /** The search made with `after` takes transition `i` into account and scans wall time `w`. */
  predicate InReach(z: Zone, i: nat, after: int, w: int)
    requires i < |z.trans|
  {
    Near(z, i, after) && ScanStart(z, after) <= w < ScanEnd(z, after)
  }

  lemma ScanEndAt(z: Zone, i: nat, after: int)
    requires ValidZone(z) && i < |z.trans| && Near(z, i, after)
    ensures after + Off(z, i) + 8340 < ScanEnd(z, after) <= after + Off(z, i) + 8400
  {
    NearIndices(z, i, after);
  }

  /** A later search near the same transition goes on at least as far. */
  lemma ScanEndGrows(z: Zone, i: nat, after: int, after': int)
    requires ValidZone(z) && i < |z.trans| && Near(z, i, after) && Near(z, i, after') && after <= after'
    ensures ScanEnd(z, after) <= ScanEnd(z, after')
  {
    NearIndices(z, i, after);
    NearIndices(z, i, after');
  }

  /** The scanned minutes touch no other transition than the near one. */
  lemma ScanStaysNear(z: Zone, i: nat, j: nat, after: int, w: int)
    requires ValidZone(z) && ModestNear(z, after) && i < |z.trans| && Near(z, i, after)
    requires j < |z.trans| && Unsettled(z, j, w) && ScanStart(z, after) <= w < ScanEnd(z, after)
    ensures j == i
  {
    ScanEndAt(z, i, after);
    assert ModestAt(z, i) && SoundAt(z, i) && SoundAt(z, i + 1);
    if j < i {
      assert SoundAt(z, i - 1);
      assert z.trans[i - 1].at >= after - 259200 ==> ModestAt(z, i - 1);
      Apart(z, i - 1, i);
      if j < i - 1 { WallStartsOrdered(z, j, i - 1, false); }
    }
    if j > i {
      assert SoundAt(z, i + 2);
      Apart(z, i, i + 1);
      if j > i + 1 { WallStartsOrdered(z, i + 1, j, true); }
    }
  }

  /** Whatever the second-pass search returns is a matching wall time of the near transition, on its
      second pass, ahead of `after`. */
  lemma RepeatIsSound(e: Fields, z: Zone, after: int) returns (i: nat)
    requires ValidZone(z) && ModestNear(z, after) && NearestInRange(e) && RepeatOutcome(e, z, after) != NoFire
    ensures i < |z.trans| && Near(z, i, after)
    ensures RepeatOutcome(e, z, after).Fires?
    ensures var when := RepeatOutcome(e, z, after).when;
            && when.fold && Unsettled(z, i, when.wall) && InReach(z, i, after, when.wall)
            && Matches(e, when.wall) && Utc(z, when) == when.wall - Off(z, i + 1) > after
  {
    hide Matches, FoldDiffers, OffsetAt, Utc, Unsettled, ScanRepeat;
    i := OffsetsDifferNear(z, after);
    ScanRepeatIsLeast(e, z, after, ScanStart(z, after), 260);
    var when := RepeatOutcome(e, z, after).when;
    var j := DiffersIffUnsettled(z, FloorMinute(when.wall));
    UnsettledByTheMinute(z, j, when.wall);
    ScanStaysNear(z, i, j, after, when.wall);
    HitMeans(e, z, after, i, when.wall);
  }

  /** A matching wall time with two offsets whose second pass is ahead is found, or something before it is,
      if and only if it is in reach: otherwise what is found is something else. */
  lemma RepeatIsComplete(e: Fields, z: Zone, after: int, i: nat, w: int)
    requires ValidZone(z) && ModestNear(z, after) && NearestInRange(e)
    requires i < |z.trans| && Unsettled(z, i, w) && Matches(e, w) && after < w - Off(z, i + 1)
    ensures InReach(z, i, after, w) ==> RepeatOutcome(e, z, after).Fires? && RepeatOutcome(e, z, after).when.wall <= w
    ensures !InReach(z, i, after, w) && RepeatOutcome(e, z, after).Fires? ==> RepeatOutcome(e, z, after).when.wall != w
  {
    hide Matches, FoldDiffers, Utc, ScanRepeat, ScanStart, InReach;
    if InReach(z, i, after, w) {
      InReachIsFound(e, z, after, i, w);
    } else if RepeatOutcome(e, z, after).Fires? {
      var j := RepeatIsSound(e, z, after);
      if RepeatOutcome(e, z, after).when.wall == w {
        UnsettledIndices(z, i, w);
        UnsettledIndices(z, j, w);
      }
    }
  }

  lemma InReachIsFound(e: Fields, z: Zone, after: int, i: nat, w: int)
    requires ValidZone(z) && NearestInRange(e)
    requires i < |z.trans| && Unsettled(z, i, w) && Matches(e, w) && after < w - Off(z, i + 1)
    requires InReach(z, i, after, w)
    ensures RepeatOutcome(e, z, after).Fires? && RepeatOutcome(e, z, after).when.wall <= w
  {
    hide Matches, FoldDiffers, Utc, ScanRepeat;
    NearIndices(z, i, after);
    HitMeans(e, z, after, i, w);
    ScanRepeatIsLeast(e, z, after, ScanStart(z, after), 260);
  }

  /** When a fall-back is of at most two hours, every reading it repeats is in reach as long as only its
      second pass is ahead. */
  lemma ShortFallBackIsInReach(z: Zone, i: nat, after: int, w: int)
    requires ValidZone(z) && i < |z.trans| && Repeated(z, i, w) && Off(z, i) - Off(z, i + 1) <= 7200
    requires w - Off(z, i) <= after < w - Off(z, i + 1)
    ensures InReach(z, i, after, w)
  {
    assert Near(z, i, after);
    NearIndices(z, i, after);
  }

  /** When it is of more than two hours and a minute, none is just before its second pass. */
  lemma LongFallBackIsOutOfReach(z: Zone, i: nat, w: int)
    requires ValidZone(z) && i < |z.trans| && Repeated(z, i, w) && Off(z, i) - Off(z, i + 1) > 7260
    ensures !InReach(z, i, w - Off(z, i + 1) - 1, w)
  {
    var after := w - Off(z, i + 1) - 1;
    assert SoundAt(z, i) && SoundAt(z, i + 1);
    if Near(z, i, after) {
      NearIndices(z, i, after);
    }
  }
}

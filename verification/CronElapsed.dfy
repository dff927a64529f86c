/** "Wildcard-hour expressions follow real elapsed time across both transitions": when that holds. */
module CronElapsed {
  import opened Zones
  import opened CronExpression
  import opened CronWalk
  import opened CronDue
  import opened CronRepeat
  import opened CronNext

  /** The answer promised: the first instant after `after` whose reading matches, counting both passes
      of a repeated hour, as far as the horizon tells. */
  ghost predicate FirstTick(e: Fields, z: Zone, after: int, r: Outcome) {
    var horizon := Horizon(StartCursor(e, Local(z, after)));
    match r
    case Raised => horizon.None?
    case Fires(when) =>
      && after < Utc(z, when) && Tick(e, z, Utc(z, when))
      && forall v :: after < v < Utc(z, when) ==> !Tick(e, z, v)
    case NoFire => horizon.Some? && forall v :: after < v && Tick(e, z, v) ==> horizon.value <= Local(z, v)
  }

  ghost predicate FollowsElapsedTime(e: Fields, z: Zone) {
    forall after :: FirstTick(e, z, after, NextOutcome(e, z, after))
  }

  /** No instant is gained from gap `i`: its matches also match when moved back by its width, and so
      does its far edge if it swallows a match. */
  ghost predicate CleanGap(e: Fields, z: Zone, i: nat)
    requires i < |z.trans|
  {
    && (forall w {:trigger Ghostly(e, z, i, w)} :: Ghostly(e, z, i, w) ==> Matches(e, GhostReading(z, i, w)))
    && (forall w {:trigger MissedMatch(e, z, i, w)} :: MissedMatch(e, z, i, w) ==> Matches(e, GapEdge(z, i)))
  }

  /** Every gap after `from` is clean. */
  ghost predicate CleanFrom(e: Fields, z: Zone, from: int) {
    forall i: nat {:trigger CleanGap(e, z, i)} :: i < |z.trans| && from < z.trans[i].at ==> CleanGap(e, z, i)
  }

  /** No instant is lost at fall-back `i`: where a call overlooks one it repeats, another match comes first. */
  ghost predicate CleanFallBack(e: Fields, z: Zone, i: nat)
    requires i < |z.trans|
  {
    forall after, w {:trigger Overlooked(e, z, after, i, w)} ::
      Overlooked(e, z, after, i, w) && Horizon(StartCursor(e, Local(z, after))).Some?
      ==> exists v :: after < v < w - Off(z, i + 1) && Tick(e, z, v)
  }

  ghost predicate Clean(e: Fields, z: Zone) {
    forall i: nat {:trigger CleanGap(e, z, i)} {:trigger CleanFallBack(e, z, i)} ::
      i < |z.trans| ==> CleanGap(e, z, i) && CleanFallBack(e, z, i)
  }

  /** Around gap `i` no search starts on 29 February, where every search raises. */
  predicate ClearOfLeapDay(z: Zone, i: nat)
    requires i < |z.trans|
  {
    var start := z.trans[i].at + Off(z, i);
    forall cur :: start - 7200 <= cur <= start + 60 ==> Horizon(cur).Some?
  }

  /** Gap `i` swallows a match within the horizon, and the reading at its far edge does not match. */
  ghost predicate BareEdge(e: Fields, z: Zone, after: int, i: nat, w: int) {
    && MissedMatch(e, z, i, w) && after < z.trans[i].at && !Matches(e, GapEdge(z, i))
    && var horizon := Horizon(StartCursor(e, Local(z, after))); horizon.Some? && w < horizon.value
  }

  /** Such an edge precedes everything else the expression fires for. */
  ghost predicate BareEdgeComesFirst(e: Fields, z: Zone, after: int) {
    exists i: nat, w {:trigger BareEdge(e, z, after, i, w)} ::
      BareEdge(e, z, after, i, w) && forall v :: after < v < z.trans[i].at ==> !Firing(e, z, v)
  }

  /** A result that is due but shows no match is a bare edge. */
  lemma UnmatchedFireIsBareEdge(e: Fields, z: Zone, after: int)
    requires ValidZone(z) && ModestNear(z, after) && NearestInRange(e) && !HourAnchored(e)
    requires NextOutcome(e, z, after).Fires? && !GhostComesFirst(e, z, after) && !OverlookedComesFirst(e, z, after)
    requires !Tick(e, z, Utc(z, NextOutcome(e, z, after).when))
    ensures BareEdgeComesFirst(e, z, after)
  {
    hide Matches, Local, Utc, Horizon, StartCursor, FireOf, RepeatOutcome, WalkOutcome, InGap;
    hide GhostComesFirst, OverlookedComesFirst, FirstPass;
    var u := Utc(z, NextOutcome(e, z, after).when);
    MissesNothingIff(e, z, after);
    WalkIsLeastDue(e, z, after);
    if !Firing(e, z, u) {
      FalseFireIsGhost(e, z, after);
    }
    var horizon := Horizon(StartCursor(e, Local(z, after))).value;
    assert DueWithin(e, z, horizon, u) by { FireIsWalked(e, z, after); }
    var w :| w < horizon && Scheduled(e, z, w, u);
    ScheduledCases(e, z, w, u);
    var i: nat :| MissedMatch(e, z, i, w) && u == z.trans[i].at;
    EdgeOfMissed(e, z, i, w);
    assert BareEdge(e, z, after, i, w);
  }

  lemma EdgeOfMissed(e: Fields, z: Zone, i: nat, w: int)
    requires ValidZone(z) && MissedMatch(e, z, i, w)
    ensures Local(z, z.trans[i].at) == GapEdge(z, i)
    ensures Scheduled(e, z, w, z.trans[i].at)
  {
    hide Matches, Local, Utc, EdgeInReach;
    EdgeExists(z, i);
    GapFiresAtEdge(z, i, w);
  }

  /** A due result without a match comes from the walk. */
  lemma FireIsWalked(e: Fields, z: Zone, after: int)
    requires ValidZone(z) && ModestNear(z, after) && NearestInRange(e) && !HourAnchored(e)
    requires NextOutcome(e, z, after).Fires?
    requires var u := Utc(z, NextOutcome(e, z, after).when); Due(e, z, u) && !Tick(e, z, u)
    ensures NextOutcome(e, z, after) == WalkOutcome(e, z, after)
  {
    hide Matches, Local, Utc, FireOf, RepeatOutcome, WalkOutcome, FirstPass, ScanEnd;
    var u := Utc(z, NextOutcome(e, z, after).when);
    if NextOutcome(e, z, after) != WalkOutcome(e, z, after) {
      var i := RepeatTicksOrIsGhost(e, z, after);
      DueMeans(e, z, u);
      var j: nat, w :| MissedMatch(e, z, j, w) && u == z.trans[j].at;
      if i < j { Apart(z, i, j); }
      if j < i { Apart(z, j, i); }
    }
  }

  /** Where a bare edge comes first, the result shows no match. */
  lemma BareEdgeIsUnmatched(e: Fields, z: Zone, after: int)
    requires ValidZone(z) && ModestNear(z, after) && NearestInRange(e) && !HourAnchored(e)
    requires BareEdgeComesFirst(e, z, after)
    ensures NextOutcome(e, z, after).Fires? && !Tick(e, z, Utc(z, NextOutcome(e, z, after).when))
  {
    hide Matches, Local, Utc, Horizon, StartCursor, FireOf, RepeatOutcome, WalkOutcome, EdgeInReach, InGap;
    var i: nat, w :| BareEdge(e, z, after, i, w) && forall v :: after < v < z.trans[i].at ==> !Firing(e, z, v);
    EdgeOfMissed(e, z, i, w);
    WalkIsLeastDue(e, z, after);
    assert Due(e, z, z.trans[i].at) && WalkOutcome(e, z, after).Fires?;
    assert Firing(e, z, Utc(z, WalkOutcome(e, z, after).when));
    assert Utc(z, WalkOutcome(e, z, after).when) == z.trans[i].at;
    if NextOutcome(e, z, after) != WalkOutcome(e, z, after) {
      var _ := RepeatTicksOrIsGhost(e, z, after);
      assert !Firing(e, z, Utc(z, NextOutcome(e, z, after).when));
    }
  }

  /** For an expression that allows every hour the result is the first matching reading ahead, unless the
      first of all instants fired at is a bare edge or overlooked, or the second-pass instant of a match
      inside a gap comes before them all. */
  lemma FirstTickIff(e: Fields, z: Zone, after: int)
    requires ValidZone(z) && ModestNear(z, after) && NearestInRange(e) && !HourAnchored(e)
    ensures FirstTick(e, z, after, NextOutcome(e, z, after)) <==>
      || Horizon(StartCursor(e, Local(z, after))).None?
      || (!GhostComesFirst(e, z, after) && !BareEdgeComesFirst(e, z, after) && !OverlookedComesFirst(e, z, after))
  {
    hide Local, Utc, NextOutcome, Horizon, StartCursor, Tick, Due;
    hide GhostComesFirst, BareEdgeComesFirst, OverlookedComesFirst;
    MissesNothingIff(e, z, after);
    forall v | Tick(e, z, v) ensures Firing(e, z, v) {
    }
    if Horizon(StartCursor(e, Local(z, after))).None? {
      NoHorizonRaises(e, z, after);
    } else if GhostComesFirst(e, z, after) {
      GhostIsFalseFire(e, z, after);
    } else if OverlookedComesFirst(e, z, after) {
      var _ := OverlookedIsMissed(e, z, after);
    } else if BareEdgeComesFirst(e, z, after) {
      BareEdgeIsUnmatched(e, z, after);
    } else if NextOutcome(e, z, after).Fires? && !Tick(e, z, Utc(z, NextOutcome(e, z, after).when)) {
      UnmatchedFireIsBareEdge(e, z, after);
    }
  }

  lemma CleanGapAddsNothing(e: Fields, z: Zone, after: int, i: nat, w: int)
    requires i < |z.trans| && (after < z.trans[i].at ==> CleanGap(e, z, i))
    ensures !GhostAhead(e, z, after, i, w) && !BareEdge(e, z, after, i, w)
  {
  }

  /** So where the gaps ahead are clean and nothing overlooked comes first, it is the first. */
  lemma CleanGapsSuffice(e: Fields, z: Zone, after: int)
    requires ValidZone(z) && ModestNear(z, after) && NearestInRange(e) && !HourAnchored(e)
    requires CleanFrom(e, z, after)
    requires Horizon(StartCursor(e, Local(z, after))).None? || !OverlookedComesFirst(e, z, after)
    ensures FirstTick(e, z, after, NextOutcome(e, z, after))
  {
    hide NextOutcome, Horizon, Firing, FirstTick, CleanGap, OverlookedComesFirst;
    FirstTickIff(e, z, after);
    forall i: nat, w | i < |z.trans| ensures !GhostAhead(e, z, after, i, w) && !BareEdge(e, z, after, i, w) {
      CleanGapAddsNothing(e, z, after, i, w);
    }
  }

  lemma CleanFallBackComesLater(e: Fields, z: Zone, after: int)
    requires !HourAnchored(e) && forall i: nat :: i < |z.trans| ==> CleanFallBack(e, z, i)
    ensures Horizon(StartCursor(e, Local(z, after))).None? || !OverlookedComesFirst(e, z, after)
  {
    hide Matches, InReach, Horizon, StartCursor, Local, Tick;
    if Horizon(StartCursor(e, Local(z, after))).Some? {
      forall i: nat, w | Overlooked(e, z, after, i, w)
        ensures exists v :: after < v < w - Off(z, i + 1) && Firing(e, z, v)
      {
        assert CleanFallBack(e, z, i);
        var v :| after < v < w - Off(z, i + 1) && Tick(e, z, v);
        assert Firing(e, z, v);
      }
    }
  }

  lemma ReadingBeforeGap(z: Zone, i: nat, u: int)
    requires ValidZone(z) && i < |z.trans| && z.trans[i].at - 7201 <= u < z.trans[i].at
    ensures Local(z, u) == u + Off(z, i)
  {
    if i > 0 { Apart(z, i - 1, i); }
    UtcIndexIs(z, u, i);
  }

  lemma CursorWithinAMinute(e: Fields, reading: int)
    ensures reading < StartCursor(e, reading) <= reading + 60
  {
  }

  /** Just before a gap that swallows a match, the next fire is the gap's far edge. */
  lemma EdgeFiresNext(e: Fields, z: Zone, i: nat, w: int)
    requires ValidZone(z) && Modest(z) && NearestInRange(e)
    requires MissedMatch(e, z, i, w) && ClearOfLeapDay(z, i)
    ensures NextOutcome(e, z, z.trans[i].at - 1).Fires?
    ensures Utc(z, NextOutcome(e, z, z.trans[i].at - 1).when) == z.trans[i].at
  {
    hide Matches, Local, Utc, Horizon, StartCursor, FireOf, RepeatOutcome, WalkOutcome;
    var at, after := z.trans[i].at, z.trans[i].at - 1;
    var cur := StartCursor(e, Local(z, after));
    ReadingBeforeGap(z, i, after);
    CursorWithinAMinute(e, Local(z, after));
    GapFiresAtEdge(z, i, w);
    assert Scheduled(e, z, w, at);
    assert Due(e, z, at);
    WalkIsLeastDue(e, z, after);
    HorizonIsLater(cur);
    assert SoundAt(z, i) && SoundAt(z, i + 1);
    ModestIsModestNear(z, after);
    if RepeatOutcome(e, z, after) != NoFire {
      var _ := RepeatIsSound(e, z, after);
    }
  }

  lemma GhostlyIsInReach(e: Fields, z: Zone, i: nat, w: int)
    requires ValidZone(z) && Ghostly(e, z, i, w)
    ensures InReach(z, i, w - Off(z, i + 1) - 1, w)
  {
    hide Matches;
    NearIndices(z, i, w - Off(z, i + 1) - 1);
  }

  /** Just before the second-pass instant of a match inside a gap, that instant is the next fire. */
  lemma GhostFiresNext(e: Fields, z: Zone, i: nat, w: int)
    requires ValidZone(z) && Modest(z) && NearestInRange(e) && !HourAnchored(e)
    requires Ghostly(e, z, i, w) && ClearOfLeapDay(z, i)
    ensures NextOutcome(e, z, w - Off(z, i + 1) - 1).Fires?
    ensures Utc(z, NextOutcome(e, z, w - Off(z, i + 1) - 1).when) == w - Off(z, i + 1)
  {
    hide Matches, Local, Utc, Horizon, StartCursor, FireOf, RepeatOutcome, WalkOutcome;
    var u := w - Off(z, i + 1);
    var after := u - 1;
    ModestIsModestNear(z, after);
    GhostInstant(z, i, w);
    ReadingBeforeGap(z, i, after);
    CursorWithinAMinute(e, Local(z, after));
    WalkIsLeastDue(e, z, after);
    UnsettledCases(z, i, w);
    GhostlyIsInReach(e, z, i, w);
    InReachIsFound(e, z, after, i, w);
    FoundIsEarlier(e, z, after, i, w);
    var _ := RepeatIsSound(e, z, after);
  }

  /** A gap that is not clean, and clear of 29 February, is a counterexample. */
  lemma CleanGapsNecessary(e: Fields, z: Zone, i: nat)
    requires ValidZone(z) && Modest(z) && NearestInRange(e) && !HourAnchored(e)
    requires i < |z.trans| && ClearOfLeapDay(z, i) && FollowsElapsedTime(e, z)
    ensures CleanGap(e, z, i)
  {
    hide Matches, Local, Utc, NextOutcome, ClearOfLeapDay, Horizon, StartCursor;
    forall w | MissedMatch(e, z, i, w) ensures Matches(e, GapEdge(z, i)) {
      EdgeFiresNext(e, z, i, w);
      EdgeExists(z, i);
      assert FirstTick(e, z, z.trans[i].at - 1, NextOutcome(e, z, z.trans[i].at - 1));
    }
    forall w | Ghostly(e, z, i, w) ensures Matches(e, GhostReading(z, i, w)) {
      GhostFiresNext(e, z, i, w);
      GhostInstant(z, i, w);
      var after := w - Off(z, i + 1) - 1;
      assert FirstTick(e, z, after, NextOutcome(e, z, after));
    }
  }

  /** A fall-back that is not clean is a counterexample. */
  lemma CleanFallBackNecessary(e: Fields, z: Zone, i: nat)
    requires ValidZone(z) && Modest(z) && NearestInRange(e) && !HourAnchored(e)
    requires i < |z.trans| && FollowsElapsedTime(e, z)
    ensures CleanFallBack(e, z, i)
  {
    hide Local, Utc, NextOutcome, Horizon, StartCursor, Overlooked, Tick;
    forall after, w | Overlooked(e, z, after, i, w) && Horizon(StartCursor(e, Local(z, after))).Some?
      ensures exists v :: after < v < w - Off(z, i + 1) && Tick(e, z, v)
    {
      ModestIsModestNear(z, after);
      OverlookedTicks(e, z, after, i, w);
      OverlookedIsNotReturned(e, z, after, i, w);
      OverlookedIsAhead(e, z, after, i, w);
      assert FirstTick(e, z, after, NextOutcome(e, z, after));
    }
  }

  lemma OverlookedIsAhead(e: Fields, z: Zone, after: int, i: nat, w: int)
    requires Overlooked(e, z, after, i, w)
    ensures after < w - Off(z, i + 1)
  {
  }

  /** A wildcard-hour expression follows real elapsed time if and only if every gap and every fall-back is
      clean. */
  lemma FollowsElapsedTimeIff(e: Fields, z: Zone)
    requires ValidZone(z) && Modest(z) && NearestInRange(e) && !HourAnchored(e)
    requires forall i: nat :: i < |z.trans| && !CleanGap(e, z, i) ==> ClearOfLeapDay(z, i)
    ensures FollowsElapsedTime(e, z) <==> Clean(e, z)
  {
    hide CleanGap, CleanFallBack, FirstTick, NextOutcome, ClearOfLeapDay, OverlookedComesFirst;
    if Clean(e, z) {
      assert forall i: nat :: i < |z.trans| ==> CleanFallBack(e, z, i);
      forall after ensures FirstTick(e, z, after, NextOutcome(e, z, after)) {
        ModestIsModestNear(z, after);
        CleanFallBackComesLater(e, z, after);
        CleanGapsSuffice(e, z, after);
      }
    }
    if FollowsElapsedTime(e, z) {
      forall i: nat | i < |z.trans| ensures CleanGap(e, z, i) && CleanFallBack(e, z, i) {
        if !CleanGap(e, z, i) {
          CleanGapsNecessary(e, z, i);
        }
        CleanFallBackNecessary(e, z, i);
      }
    }
  }

  /** A fall-back of at most two hours is clean, whatever it repeats. */
  lemma ShortFallBackIsClean(e: Fields, z: Zone, i: nat)
    requires ValidZone(z) && i < |z.trans| && ShortAt(z, i)
    ensures CleanFallBack(e, z, i)
  {
    hide Matches, InReach, Horizon, StartCursor, Local;
    forall after, w ensures !Overlooked(e, z, after, i, w) {
      if Overlooked(e, z, after, i, w) {
        ShortFallBackIsInReach(z, i, after, w);
      }
    }
  }

  /** One of more than two hours and a minute is clean if and only if it repeats no match, where no search
      made just before a second pass starts on 29 February. */
  lemma LongFallBackIsCleanIff(e: Fields, z: Zone, i: nat)
    requires ValidZone(z) && i < |z.trans| && Off(z, i) - Off(z, i + 1) > 7260
    requires forall w :: Repeated(z, i, w) ==> Horizon(StartCursor(e, Local(z, w - Off(z, i + 1) - 1))).Some?
    ensures CleanFallBack(e, z, i) <==> forall w :: Repeated(z, i, w) ==> !Matches(e, w)
  {
    hide Matches, InReach, Horizon, StartCursor, Local;
    if CleanFallBack(e, z, i) {
      forall w | Repeated(z, i, w) ensures !Matches(e, w) {
        if Matches(e, w) {
          LongOverlooksEverything(e, z, i, w);
        }
      }
    }
  }
}

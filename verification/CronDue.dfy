/** What the wall-clock walk means in real time: which instants are due, and that the walk finds the
    least due instant after the given one, whatever transitions the zone has. */
module CronDue {
  import opened Calendar
  import opened Wrappers
  import opened Zones
  import opened CronExpression
  import opened CronWalk

  /** The matching wall time `w` fires at instant `u`. */
  ghost predicate Scheduled(e: Fields, z: Zone, w: int, u: int) {
    Matches(e, w) && FireOf(z, w).Some? && Utc(z, FireOf(z, w).value) == u
  }

  ghost predicate Due(e: Fields, z: Zone, u: int) {
    exists w :: Scheduled(e, z, w, u)
  }

  /** No earlier instant shows the reading that `u` shows. */
  ghost predicate FirstPass(z: Zone, u: int) {
    forall v {:trigger Local(z, v)} :: Local(z, v) == Local(z, u) ==> u <= v
  }

  /** Some matching wall time was skipped by the gap whose far edge is `u`. */
  ghost predicate EndsMissedMatch(e: Fields, z: Zone, u: int) {
    exists i: nat, w :: MissedMatch(e, z, i, w) && u == z.trans[i].at
  }

  ghost predicate MissedMatch(e: Fields, z: Zone, i: nat, w: int) {
    i < |z.trans| && InGap(z, i, w) && EdgeInReach(z, i, w) && Matches(e, w)
  }

  lemma ReadingFires(z: Zone, u: int)
    requires ValidZone(z)
    ensures FireOf(z, Local(z, u)) == Some(Aware(Local(z, u), false))
    ensures Utc(z, Aware(Local(z, u), false)) <= u
    ensures FirstPass(z, u) <==> Utc(z, Aware(Local(z, u), false)) == u
  {
    hide Utc, Local;
    var w := Local(z, u);
    LocaliseIsFirstPass(z, w, u);
    forall v | Local(z, v) == w ensures Utc(z, Aware(w, false)) <= v {
      LocaliseIsFirstPass(z, w, v);
    }
  }

  lemma ScheduledCases(e: Fields, z: Zone, w: int, u: int)
    requires ValidZone(z) && Scheduled(e, z, w, u)
    ensures FirstPass(z, u)
    ensures (Local(z, u) == w && Matches(e, Local(z, u)))
            || (exists i: nat :: MissedMatch(e, z, i, w) && u == z.trans[i].at)
  {
    hide Matches;
    var i, u' := FireBounds(z, w);
    if i < |z.trans| && InGap(z, i, w) {
      GapFiresAtEdge(z, i, w);
      EdgeExists(z, i);
      ReadingFires(z, u);
      assert MissedMatch(e, z, i, w);
    } else {
      assert Local(z, u) == w;
      ReadingFires(z, u);
    }
  }

  /** An instant is due exactly when it is the first pass of a matching reading or the far edge of a
      gap that swallowed a matching one. */
  lemma DueMeans(e: Fields, z: Zone, u: int)
    requires ValidZone(z)
    ensures Due(e, z, u) <==> (FirstPass(z, u) && Matches(e, Local(z, u))) || EndsMissedMatch(e, z, u)
  {
    hide Matches, Local, Utc, FireOf, InGap, EdgeInReach, FirstPass;
    if Due(e, z, u) {
      var w :| Scheduled(e, z, w, u);
      ScheduledCases(e, z, w, u);
    }
    if FirstPass(z, u) && Matches(e, Local(z, u)) {
      ReadingFires(z, u);
      assert Scheduled(e, z, Local(z, u), u);
    }
    if EndsMissedMatch(e, z, u) {
      var i: nat, w :| MissedMatch(e, z, i, w) && u == z.trans[i].at;
      GapFiresAtEdge(z, i, w);
      assert Scheduled(e, z, w, u);
    }
  }

  /** Later due instants show strictly later readings, so no reading is ever due on both passes. */
  lemma DueReadingsIncrease(e: Fields, z: Zone, u: int, u': int)
    requires ValidZone(z) && Due(e, z, u) && Due(e, z, u') && u < u'
    ensures Local(z, u) < Local(z, u')
  {
    hide Matches, Local, Utc, FireOf, FirstPass;
    var w :| Scheduled(e, z, w, u);
    var w' :| Scheduled(e, z, w', u');
    ScheduledCases(e, z, w, u);
    ScheduledCases(e, z, w', u');
    ReadingFires(z, u);
    ReadingFires(z, u');
    if Local(z, u') <= Local(z, u) {
      FiresInWallOrder(z, Local(z, u'), Local(z, u));
    }
  }

  /** All matches inside one gap are due at one instant, its far edge. */
  lemma GapCollapses(e: Fields, z: Zone, i: nat, w: int, u: int)
    requires ValidZone(z) && i < |z.trans| && InGap(z, i, w) && Scheduled(e, z, w, u)
    ensures u == z.trans[i].at && Local(z, u) == GapEdge(z, i)
  {
    GapFiresAtEdge(z, i, w);
    EdgeExists(z, i);
  }

  // ---- the walk finds the least due instant --------------------------------------------------

  lemma NextWholeMinute(reading: int, w: int)
    requires reading < w && w % 60 == 0
    ensures FloorMinute(reading + 60) <= w
  {
    assert reading / 60 < w / 60;
  }

  /** Rounding the first cursor to a whole minute passes over no match. */
  lemma StartMissesNothing(e: Fields, reading: int, w: int)
    requires reading < w && TimeMatches(e, w)
    ensures StartCursor(e, reading) <= w
  {
    hide Hour, Minute, FloorMinute;
    if !HasSeconds(e) {
      assert e.seconds == {0};
      NextWholeMinute(reading, w);
    }
  }

  /** `u` is due on account of a wall time before the horizon. */
  ghost predicate DueWithin(e: Fields, z: Zone, horizon: int, u: int) {
    exists w :: w < horizon && Scheduled(e, z, w, u)
  }

  /** `r` is the answer to "the first instant after `after` among those `due`", as far as walls below
      the horizon tell. */
  ghost predicate LeastDue(e: Fields, z: Zone, after: int, r: Outcome) {
    var horizon := Horizon(StartCursor(e, Local(z, after)));
    match r
    case Raised => horizon.None?
    case Fires(when) =>
      && horizon.Some? && after < Utc(z, when) && Due(e, z, Utc(z, when))
      && forall v :: after < v < Utc(z, when) ==> !Due(e, z, v)
    case NoFire =>
      && horizon.Some?
      && forall w, v :: Scheduled(e, z, w, v) && after < v ==> horizon.value <= w
  }

  /** A wall time still ahead of `after` in real time ends the search, unless it was not reached. */
  lemma FutureMatchEndsSearch(e: Fields, z: Zone, after: int, w: int, u: int)
    requires ValidZone(z) && Scheduled(e, z, w, u) && after < u
    ensures StartCursor(e, Local(z, after)) <= w && Decide(e, z, after, w) == Match
  {
    hide Local, Utc, FireOf, StartCursor;
    if w <= Local(z, after) {
      PastWallsFireInThePast(z, w, after);
    }
    StartMissesNothing(e, Local(z, after), w);
  }

  /** For every expression and every zone, however many transitions lie ahead, the walk answers with
      the least due instant. */
  lemma WalkIsLeastDue(e: Fields, z: Zone, after: int)
    requires ValidZone(z) && NearestInRange(e)
    ensures LeastDue(e, z, after, WalkOutcome(e, z, after))
    ensures WalkOutcome(e, z, after).Fires? ==>
              var when := WalkOutcome(e, z, after).when;
              && !when.fold && Local(z, Utc(z, when)) == when.wall
              && DueWithin(e, z, Horizon(StartCursor(e, Local(z, after))).value, Utc(z, when))
  {
    hide Local, Utc, FireOf, StartCursor, Horizon, DayMatches, Month, TimeMatches;
    var cur, h := StartCursor(e, Local(z, after)), Horizon(StartCursor(e, Local(z, after)));
    if h.Some? {
      HorizonIsLater(cur);
      var w := ScanIsLeast(e, z, after, cur, h.value);
      NothingRaises(e, DayOf(w));
      forall v, x | Scheduled(e, z, v, x) && after < x ensures w <= v {
        FutureMatchEndsSearch(e, z, after, v, x);
      }
      if WalkOutcome(e, z, after).Fires? {
        WalkFires(e, z, after, h.value, w);
      }
    }
  }

  lemma WalkFires(e: Fields, z: Zone, after: int, horizon: int, w: int)
    requires ValidZone(z) && w < horizon && Decide(e, z, after, w) == Match
    requires forall v, x :: Scheduled(e, z, v, x) && after < x ==> w <= v
    ensures var when := FireOf(z, w).value;
            && after < Utc(z, when) && Due(e, z, Utc(z, when)) && DueWithin(e, z, horizon, Utc(z, when))
            && (forall v :: after < v < Utc(z, when) ==> !Due(e, z, v))
            && !when.fold && Local(z, Utc(z, when)) == when.wall
  {
    hide Local, Utc, DayMatches, Month, TimeMatches, Localise, ProbeFrom;
    var when := FireOf(z, w).value;
    assert Scheduled(e, z, w, Utc(z, when));
    forall v | after < v < Utc(z, when) ensures !Due(e, z, v) {
      if Due(e, z, v) {
        var x :| Scheduled(e, z, x, v);
        FiresInWallOrder(z, w, x);
      }
    }
    FireReads(z, w);
  }

  lemma FireReads(z: Zone, w: int)
    requires ValidZone(z) && FireOf(z, w).Some?
    ensures !FireOf(z, w).value.fold && Local(z, Utc(z, FireOf(z, w).value)) == FireOf(z, w).value.wall
  {
    hide Local, Utc;
    var i, u := FireBounds(z, w);
    if i < |z.trans| && InGap(z, i, w) {
      GapFiresAtEdge(z, i, w);
      EdgeExists(z, i);
    }
  }
}

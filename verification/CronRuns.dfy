/** Whole runs of the scheduler: each fire is fed back as the next `after`. */
module CronRuns {
  import opened Zones
  import opened CronExpression
  import opened CronWalk
  import opened CronDue
  import opened CronRepeat
  import opened CronNext

  function Last(after: int, fires: seq<int>): int {
    if fires == [] then after else fires[|fires| - 1]
  }

  /** `fires` are the instants returned by successive calls, the first one made with `after`. */
  ghost predicate IsRun(e: Fields, z: Zone, after: int, fires: seq<int>) {
    fires == [] ||
    (var before := fires[..|fires| - 1];
     && IsRun(e, z, after, before)
     && NextOutcome(e, z, Last(after, before)).Fires?
     && Utc(z, NextOutcome(e, z, Last(after, before)).when) == Last(after, fires))
  }

  /** Neither the first call nor any made with a fire that is fed back overlooks anything. */
  ghost predicate NothingOverlookedAlong(e: Fields, z: Zone, after: int, fires: seq<int>) {
    fires == [] ||
    (var before := fires[..|fires| - 1];
     && NothingOverlookedAlong(e, z, after, before)
     && ModestNear(z, Last(after, before)) && NothingOverlooked(e, z, Last(after, before)))
  }

  /** A run that overlooks nothing passes over no firing instant up to its last, and its fires strictly
      increase, across any number of transitions and whether gaps are harmless or not. */
  lemma {:induction false} RunMissesNothing(e: Fields, z: Zone, after: int, fires: seq<int>)
    requires ValidZone(z) && NearestInRange(e) && IsRun(e, z, after, fires)
    requires HourAnchored(e) || NothingOverlookedAlong(e, z, after, fires)
    ensures after <= Last(after, fires)
    ensures forall k :: 0 <= k < |fires| ==> after < fires[k] <= Last(after, fires)
    ensures forall j, k :: 0 <= j < k < |fires| ==> fires[j] < fires[k]
    ensures forall u :: after < u <= Last(after, fires) && Firing(e, z, u) ==> u in fires
    decreases |fires|
  {
    hide Firing, NextOutcome, Utc, Horizon, StartCursor, Local, Scheduled, ModestNear;
    hide NothingOverlooked, NoFiringBefore;
    if fires == [] {
    } else {
      var before := fires[..|fires| - 1];
      RunMissesNothing(e, z, after, before);
      NextMissesNothing(e, z, Last(after, before));
      assert fires == before + [Last(after, fires)];
    }
  }

  /** The expression and the zone are tame near the start and near every fire that is fed back. */
  ghost predicate TameAlong(e: Fields, z: Zone, after: int, fires: seq<int>) {
    fires == [] ||
    (var before := fires[..|fires| - 1];
     TameAlong(e, z, after, before) && TameNear(e, z, Last(after, before)))
  }

  /** Where they are tame, a run lists exactly the firing instants up to its last: none is missed, none
      repeated and none added. */
  lemma {:induction false} RunEnumerates(e: Fields, z: Zone, after: int, fires: seq<int>)
    requires ValidZone(z) && NearestInRange(e) && IsRun(e, z, after, fires) && TameAlong(e, z, after, fires)
    ensures after <= Last(after, fires)
    ensures forall j, k :: 0 <= j < k < |fires| ==> fires[j] < fires[k]
    ensures forall u :: u in fires <==> after < u <= Last(after, fires) && Firing(e, z, u)
    decreases |fires|
  {
    hide Firing, NextOutcome, Utc, Horizon, StartCursor, Local, Scheduled, TameNear;
    if fires == [] {
    } else {
      var before := fires[..|fires| - 1];
      RunEnumerates(e, z, after, before);
      NextIsLeastFiring(e, z, Last(after, before));
      assert fires == before + [Last(after, fires)];
      forall u ensures u in fires <==> u in before || u == Last(after, fires) {
      }
      assert forall k :: 0 <= k < |before| ==> before[k] in before;
    }
  }

  /** Hour-anchored expressions are tame along every run, in every zone. */
  lemma {:induction false} AnchoredIsTame(e: Fields, z: Zone, after: int, fires: seq<int>)
    requires HourAnchored(e)
    ensures TameAlong(e, z, after, fires)
    decreases |fires|
  {
    if fires == [] {
    } else {
      AnchoredIsTame(e, z, after, fires[..|fires| - 1]);
    }
  }

  /** Over a whole run of an hour-anchored expression, from any starting instant, the clock's readings
      strictly increase: no wall time fires on both of its passes. */
  lemma AnchoredRunNeverRepeatsAReading(e: Fields, z: Zone, after: int, fires: seq<int>, j: nat, k: nat)
    requires ValidZone(z) && NearestInRange(e) && HourAnchored(e) && IsRun(e, z, after, fires)
    requires j < k < |fires|
    ensures fires[j] < fires[k] && Local(z, fires[j]) < Local(z, fires[k])
  {
    hide NextOutcome, Utc, Local, Due;
    AnchoredIsTame(e, z, after, fires);
    RunEnumerates(e, z, after, fires);
    assert fires[j] in fires && fires[k] in fires;
    DueReadingsIncrease(e, z, fires[j], fires[k]);
  }

  /** An hour-anchored expression that matches inside a gap fires once for the whole gap, at the instant
      the clock jumps past it, and next fires strictly later than that. */
  lemma AnchoredGapFiresOnce(e: Fields, z: Zone, after: int, i: nat, w: int)
    requires ValidZone(z) && NearestInRange(e) && HourAnchored(e)
    requires MissedMatch(e, z, i, w) && after < z.trans[i].at
    requires forall v :: after < v < z.trans[i].at ==> !Due(e, z, v)
    requires Horizon(StartCursor(e, Local(z, after))).Some? && w < Horizon(StartCursor(e, Local(z, after))).value
    ensures NextOutcome(e, z, after) == Fires(Aware(GapEdge(z, i), false))
    ensures Utc(z, Aware(GapEdge(z, i), false)) == z.trans[i].at
    ensures NextOutcome(e, z, z.trans[i].at).Fires? ==> Utc(z, NextOutcome(e, z, z.trans[i].at).when) > z.trans[i].at
  {
    hide Utc, Local, Matches, Horizon, StartCursor, FireOf, EdgeInReach, WalkOutcome;
    GapFiresAtEdge(z, i, w);
    assert Scheduled(e, z, w, z.trans[i].at);
    assert Due(e, z, z.trans[i].at);
    WalkIsLeastDue(e, z, after);
    WalkIsLeastDue(e, z, z.trans[i].at);
    EdgeExists(z, i);
  }

  /** Without transitions every run is tame, and an instant fires exactly when its reading matches. */
  lemma FixedOffsetFiresWhenMatching(e: Fields, z: Zone, u: int)
    requires z.trans == [] && -86400 < z.base < 86400 && WholeMinutes(z.base)
    ensures ValidZone(z) && TameNear(e, z, u)
    ensures Firing(e, z, u) <==> Matches(e, u + z.base)
  {
    hide Matches;
    DueMeans(e, z, u);
    forall v | Local(z, v) == Local(z, u) ensures u <= v {
    }
  }
}

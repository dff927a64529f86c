/** `@every` and `@once`: fires measured from an anchor, in whole time units. */
module Intervals {
  import opened Wrappers

  /** The fire of `@every`: one interval past the anchor, or, after a long pause, as many whole
      intervals as it takes to be ahead of `after`. */
  function EveryNext(anchor: int, every: int, after: int): int
    requires every > 0
  {
    var candidate := anchor + every;
    if candidate <= after then
      var missed := (after - candidate) / every;
      candidate + every * (missed + 1)
    else candidate
  }

  /** The points `anchor + k * every` with k >= 1. */
  ghost predicate OnGrid(anchor: int, every: int, t: int) {
    exists k: int :: GridPoint(anchor, every, t, k)
  }

  ghost predicate GridPoint(anchor: int, every: int, t: int, k: int) {
    k >= 1 && t == anchor + k * every
  }

  lemma MultiplesOrdered(every: int, a: int, b: int)
    requires every > 0 && a <= b
    ensures a * every <= b * every
  {
  }

  /** The result is the least grid point strictly after both `anchor` and `after`. */
  lemma EveryIsLeast(anchor: int, every: int, after: int)
    requires every > 0
    ensures OnGrid(anchor, every, EveryNext(anchor, every, after)) && EveryNext(anchor, every, after) > after
    ensures forall t :: OnGrid(anchor, every, t) && t > after ==> EveryNext(anchor, every, after) <= t
  {
    var next := EveryNext(anchor, every, after);
    var missed := if anchor + every <= after then (after - anchor - every) / every else -1;
    var k := missed + 2;
    assert next == anchor + k * every;
    assert GridPoint(anchor, every, next, k);
    forall t | OnGrid(anchor, every, t) && t > after ensures next <= t {
      var j :| GridPoint(anchor, every, t, j);
      if j < k {
        MultiplesOrdered(every, j, k - 1);
      } else {
        MultiplesOrdered(every, k, j);
      }
    }
  }

  /** The fires of a run whose k-th call is made at `afters[k]`, each anchored on the fire before. */
  function EveryRun(anchor: int, every: int, afters: seq<int>): (fires: seq<int>)
    requires every > 0
    ensures |fires| == |afters|
    decreases |afters|
  {
    if afters == [] then []
    else
      var before := EveryRun(anchor, every, afters[..|afters| - 1]);
      before + [EveryNext(Latest(anchor, before), every, afters[|afters| - 1])]
  }

  function Latest(anchor: int, fires: seq<int>): int {
    if fires == [] then anchor else fires[|fires| - 1]
  }

  lemma GridsNest(anchor: int, every: int, later: int, t: int)
    requires every > 0 && (later == anchor || OnGrid(anchor, every, later))
    ensures OnGrid(later, every, t) <==> OnGrid(anchor, every, t) && later < t
  {
    var j :| (j == 0 || GridPoint(anchor, every, later, j)) && later == anchor + j * every;
    if OnGrid(later, every, t) {
      var k :| GridPoint(later, every, t, k);
      MultiplesOrdered(every, 1, k);
      assert t == anchor + (j + k) * every;
      assert GridPoint(anchor, every, t, j + k);
    }
    if OnGrid(anchor, every, t) && later < t {
      var k :| GridPoint(anchor, every, t, k);
      if k <= j { MultiplesOrdered(every, k, j); }
      assert t == later + (k - j) * every;
      assert GridPoint(later, every, t, k - j);
    }
  }

  /** However long the pauses, every fire of a run is the least point of the original grid after both
      the fire before it and the moment of its call: the phase never drifts. */
  lemma {:induction false} PhaseIsKept(anchor: int, every: int, afters: seq<int>, k: nat)
    requires every > 0 && k < |afters|
    ensures var fires := EveryRun(anchor, every, afters);
            var before := Latest(anchor, fires[..k]);
            && OnGrid(anchor, every, fires[k]) && before < fires[k] && afters[k] < fires[k]
            && forall t :: OnGrid(anchor, every, t) && before < t && afters[k] < t ==> fires[k] <= t
    decreases |afters|
  {
    var init := afters[..|afters| - 1];
    var before := EveryRun(anchor, every, init);
    var fires := EveryRun(anchor, every, afters);
    assert fires[..|init|] == before;
    if k < |init| {
      PhaseIsKept(anchor, every, init, k);
      assert fires[..k] == before[..k] && init[k] == afters[k];
    } else {
      var later := Latest(anchor, before);
      if before == [] {
      } else {
        PhaseIsKept(anchor, every, init, |init| - 1);
      }
      EveryIsLeast(later, every, afters[k]);
      forall t ensures OnGrid(later, every, t) <==> OnGrid(anchor, every, t) && later < t {
        GridsNest(anchor, every, later, t);
      }
    }
  }

  /** The single fire of `@once`, until its moment has passed. */
  function OnceNext(anchor: int, delay: int, after: int): Option<int> {
    if anchor + delay < after then None else Some(anchor + delay)
  }
}

/** Time zones, as `zoneinfo` presents them through `utcoffset()` and `fold` (PEP 495).

    A zone is a first offset and a list of transition instants, each with the offset that holds from
    then on. An instant is an integer number of UTC seconds; a wall-clock time is one of local
    seconds. `OffsetAt` answers for instants, `WallOffset` for wall times with a fold bit. */
module Zones {
  import opened Calendar
  import opened Wrappers

  datatype Transition = Transition(at: int, after: int)

  datatype Zone = Zone(base: int, trans: seq<Transition>)

  /** A wall-clock time with its fold bit: the second pass of a repeated hour has `fold` set. */
  datatype Aware = Aware(wall: int, fold: bool)

  /** The offset in force once `i` transitions have passed. */
  function Off(z: Zone, i: nat): int
    requires i <= |z.trans|
  {
    if i == 0 then z.base else z.trans[i - 1].after
  }

  predicate WholeMinutes(t: int) { t % 60 == 0 }

  /** Around transition `i`: offsets stay below a day, everything is in whole minutes, and the next
      transition is at least two days away. */
  predicate SoundAt(z: Zone, i: nat)
    requires i <= |z.trans|
  {
    && -86400 < Off(z, i) < 86400 && WholeMinutes(Off(z, i))
    && (i < |z.trans| ==> WholeMinutes(z.trans[i].at))
    && (i + 1 < |z.trans| ==> z.trans[i].at + 2 * 86400 <= z.trans[i + 1].at)
  }

  ghost predicate ValidZone(z: Zone) {
    forall i: nat {:trigger SoundAt(z, i)} :: i <= |z.trans| ==> SoundAt(z, i)
  }

  lemma Apart(z: Zone, i: nat, j: nat)
    requires ValidZone(z) && i < j < |z.trans|
    ensures z.trans[i].at + 2 * 86400 <= z.trans[j].at
    decreases j
  {
    assert SoundAt(z, j - 1);
    if i + 1 == j {
    } else {
      Apart(z, i, j - 1);
    }
  }

  // ---- instants ------------------------------------------------------------------------------

  /** How many of the first `n` transitions have passed at instant `u`. */
  function Passed(z: Zone, u: int, n: nat): (k: nat)
    requires n <= |z.trans|
    ensures k <= n
    ensures k > 0 ==> z.trans[k - 1].at <= u
    ensures k < n ==> u < z.trans[k].at
  {
    if n == 0 then 0
    else if z.trans[n - 1].at <= u then n
    else Passed(z, u, n - 1)
  }

  function UtcIndex(z: Zone, u: int): nat { Passed(z, u, |z.trans|) }

  function OffsetAt(z: Zone, u: int): int { Off(z, UtcIndex(z, u)) }

  /** The wall clock's reading at instant `u`. */
  function Local(z: Zone, u: int): int { u + OffsetAt(z, u) }

  lemma {:induction false} PassedIs(z: Zone, u: int, k: nat, n: nat)
    requires ValidZone(z) && k <= n <= |z.trans|
    requires k > 0 ==> z.trans[k - 1].at <= u
    requires k < |z.trans| ==> u < z.trans[k].at
    ensures Passed(z, u, n) == k
    decreases n
  {
    if k >= n {
    } else {
      if k < n - 1 { Apart(z, k, n - 1); }
      PassedIs(z, u, k, n - 1);
    }
  }

  lemma UtcIndexIs(z: Zone, u: int, k: nat)
    requires ValidZone(z) && k <= |z.trans|
    requires k > 0 ==> z.trans[k - 1].at <= u
    requires k < |z.trans| ==> u < z.trans[k].at
    ensures UtcIndex(z, u) == k
  {
    PassedIs(z, u, k, |z.trans|);
  }

  // ---- wall times ----------------------------------------------------------------------------

  function Max(a: int, b: int): int { if a < b then b else a }

  function Min(a: int, b: int): int { if a < b then a else b }

  /** The wall reading at which transition `i` takes effect: the later of its two readings on the
      first pass, the earlier on the second. */
  function WallStart(z: Zone, i: nat, fold: bool): int
    requires i < |z.trans|
  {
    z.trans[i].at + if fold then Min(Off(z, i), Off(z, i + 1)) else Max(Off(z, i), Off(z, i + 1))
  }

  function WallPassed(z: Zone, w: int, fold: bool, n: nat): (k: nat)
    requires n <= |z.trans|
    ensures k <= n
    ensures k > 0 ==> WallStart(z, k - 1, fold) <= w
    ensures k < n ==> w < WallStart(z, k, fold)
  {
    if n == 0 then 0
    else if WallStart(z, n - 1, fold) <= w then n
    else WallPassed(z, w, fold, n - 1)
  }

  function WallIndex(z: Zone, w: int, fold: bool): nat { WallPassed(z, w, fold, |z.trans|) }

  /** `wall.replace(tzinfo=zone, fold=fold).utcoffset()`. */
  function WallOffset(z: Zone, w: int, fold: bool): int { Off(z, WallIndex(z, w, fold)) }

  /** `aware.astimezone(UTC)`. */
  function Utc(z: Zone, a: Aware): int { a.wall - WallOffset(z, a.wall, a.fold) }

  lemma WallStartsOrdered(z: Zone, i: nat, j: nat, fold: bool)
    requires ValidZone(z) && i < j < |z.trans|
    ensures WallStart(z, i, fold) < WallStart(z, j, fold)
  {
    Apart(z, i, j);
    assert SoundAt(z, i) && SoundAt(z, i + 1);
    assert SoundAt(z, j) && SoundAt(z, j + 1);
  }

  lemma {:induction false} WallPassedAtMost(z: Zone, w: int, fold: bool, k: nat, n: nat)
    requires ValidZone(z) && k < |z.trans| && n <= |z.trans| && w < WallStart(z, k, fold)
    ensures WallPassed(z, w, fold, n) <= k
    decreases n
  {
    if k >= n {
    } else {
      if k < n - 1 { WallStartsOrdered(z, k, n - 1, fold); }
      WallPassedAtMost(z, w, fold, k, n - 1);
    }
  }

  lemma WallIndexIs(z: Zone, w: int, fold: bool, k: nat)
    requires ValidZone(z) && k <= |z.trans|
    requires k > 0 ==> WallStart(z, k - 1, fold) <= w
    requires k < |z.trans| ==> w < WallStart(z, k, fold)
    ensures WallIndex(z, w, fold) == k
  {
    if k < |z.trans| { WallPassedAtMost(z, w, fold, k, |z.trans|); }
    WallPassedAtLeast(z, w, fold, k, |z.trans|);
  }

  lemma {:induction false} WallPassedAtLeast(z: Zone, w: int, fold: bool, k: nat, n: nat)
    requires k <= n <= |z.trans| && (k > 0 ==> WallStart(z, k - 1, fold) <= w)
    ensures k <= WallPassed(z, w, fold, n)
    decreases n
  {
    if k >= n {
    } else {
      WallPassedAtLeast(z, w, fold, k, n - 1);
    }
  }

  // ---- gaps ----------------------------------------------------------------------------------

  /** Wall time `w` is skipped when transition `i` moves the clock forward. */
  predicate InGap(z: Zone, i: nat, w: int)
    requires i < |z.trans|
  {
    z.trans[i].at + Off(z, i) <= w < z.trans[i].at + Off(z, i + 1)
  }

  /** The reading of the first instant after gap `i`. */
  function GapEdge(z: Zone, i: nat): int
    requires i < |z.trans|
  {
    z.trans[i].at + Off(z, i + 1)
  }

  /** Wall time `w` is read twice because transition `i` moves the clock back. */
  predicate Repeated(z: Zone, i: nat, w: int)
    requires i < |z.trans|
  {
    z.trans[i].at + Off(z, i + 1) <= w < z.trans[i].at + Off(z, i)
  }

  /** Attach the zone to a wall time, on its first pass; `None` when the time does not exist. */
  function Localise(z: Zone, w: int): Option<Aware> {
    var aware := Aware(w, false);
    if Local(z, Utc(z, aware)) == w then Some(aware) else None
  }

  /** Where a wall time sits among the transitions, and when it exists. */
  lemma WallPosition(z: Zone, w: int) returns (i: nat, u: int)
    requires ValidZone(z)
    ensures i == WallIndex(z, w, false) && i <= |z.trans| && u == Utc(z, Aware(w, false)) == w - Off(z, i)
    ensures i > 0 ==> z.trans[i - 1].at <= u
    ensures i < |z.trans| && InGap(z, i, w) ==> Localise(z, w) == None
    ensures !(i < |z.trans| && InGap(z, i, w)) ==> Localise(z, w) == Some(Aware(w, false)) && UtcIndex(z, u) == i
  {
    i, u := WallIndex(z, w, false), Utc(z, Aware(w, false));
    if i < |z.trans| {
      assert SoundAt(z, i) && SoundAt(z, i + 1);
      if InGap(z, i, w) {
        if i + 1 < |z.trans| { Apart(z, i, i + 1); }
        UtcIndexIs(z, u, i + 1);
      } else {
        UtcIndexIs(z, u, i);
      }
    } else {
      UtcIndexIs(z, u, i);
    }
  }

  lemma GapPosition(z: Zone, i: nat, w: int)
    requires ValidZone(z) && i < |z.trans| && InGap(z, i, w)
    ensures WallIndex(z, w, false) == i && Localise(z, w) == None
  {
    if i > 0 {
      Apart(z, i - 1, i);
      assert SoundAt(z, i - 1) && SoundAt(z, i);
    }
    WallIndexIs(z, w, false, i);
    var _, _ := WallPosition(z, w);
  }

  /** Exactly the wall times of gaps do not exist. */
  lemma MissingIffGap(z: Zone, w: int)
    requires ValidZone(z)
    ensures Localise(z, w).None? <==> exists i :: 0 <= i < |z.trans| && InGap(z, i, w)
  {
    var i, _ := WallPosition(z, w);
    forall j | 0 <= j < |z.trans| && InGap(z, j, w) ensures Localise(z, w).None? {
      GapPosition(z, j, w);
    }
  }

  /** A reading's first pass lies under the transitions passed so far, at most one fewer. */
  lemma ReadingIndex(z: Zone, u: int)
    requires ValidZone(z)
    ensures WallIndex(z, Local(z, u), false) <= UtcIndex(z, u) <= WallIndex(z, Local(z, u), false) + 1
  {
    var k, w := UtcIndex(z, u), Local(z, u);
    assert SoundAt(z, k);
    if k < |z.trans| { WallPassedAtMost(z, w, false, k, |z.trans|); }
    if k > 1 {
      Apart(z, k - 2, k - 1);
      assert SoundAt(z, k - 2) && SoundAt(z, k - 1);
      WallPassedAtLeast(z, w, false, k - 1, |z.trans|);
    }
  }

  /** Localising returns the first instant, in real time, that reads `w`, and fails only when no
      instant does. */
  lemma LocaliseIsFirstPass(z: Zone, w: int, u: int)
    requires ValidZone(z) && Local(z, u) == w
    ensures Localise(z, w) == Some(Aware(w, false))
    ensures Local(z, Utc(z, Aware(w, false))) == w && Utc(z, Aware(w, false)) <= u
  {
    var k := UtcIndex(z, u);
    ReadingIndex(z, u);
    var i, u0 := WallPosition(z, w);
  }

  // ---- the first existing time after a gap ---------------------------------------------------

  /** The first existing time among the next `left` probes, one minute apart from `probe` on. */
  function ProbeFrom(z: Zone, probe: int, left: nat): Option<Aware>
    decreases left, probe
  {
    if left == 0 then None
    else
      var localised := Localise(z, FloorMinute(probe + 60));
      if localised.Some? then localised else ProbeFrom(z, probe + 60, left - 1)
  }

  /** The scan of `_first_valid_after_gap`. */
  method FirstValidAfterGap(z: Zone, naive: int) returns (found: Option<Aware>)
    ensures found == ProbeFrom(z, naive, 180)
  {
    hide Localise, FloorMinute;
    var probe := naive;
    for i := 0 to 180
      invariant ProbeFrom(z, naive, 180) == ProbeFrom(z, probe, 180 - i)
    {
      probe := probe + 60;
      var localised := Localise(z, FloorMinute(probe));
      if localised.Some? {
        return localised;
      }
    }
    return None;
  }

  /** What a matching wall time fires as: itself when it exists, else the far edge of its gap. */
  function FireOf(z: Zone, w: int): Option<Aware> {
    if Localise(z, w).Some? then Localise(z, w) else ProbeFrom(z, w, 180)
  }

  /** The gap's far edge is close enough for the bounded scan to reach it from `w`. */
  predicate EdgeInReach(z: Zone, i: nat, w: int)
    requires i < |z.trans|
  {
    GapEdge(z, i) - FloorMinute(w) <= 10800
  }

  lemma EdgeExists(z: Zone, i: nat)
    requires ValidZone(z) && i < |z.trans| && Off(z, i) < Off(z, i + 1)
    ensures Local(z, z.trans[i].at) == GapEdge(z, i)
    ensures Localise(z, GapEdge(z, i)) == Some(Aware(GapEdge(z, i), false))
    ensures Utc(z, Aware(GapEdge(z, i), false)) == z.trans[i].at
    ensures GapEdge(z, i) % 60 == 0
  {
    var e, at := GapEdge(z, i), z.trans[i].at;
    if i + 1 < |z.trans| { Apart(z, i, i + 1); }
    assert SoundAt(z, i) && SoundAt(z, i + 1);
    UtcIndexIs(z, at, i + 1);
    LocaliseIsFirstPass(z, e, at);
    if i + 1 < |z.trans| {
      assert SoundAt(z, i + 1 + 1);
      assert WallStart(z, i + 1, false) >= z.trans[i + 1].at + Off(z, i + 1);
    }
    WallIndexIs(z, e, false, i + 1);
  }

  lemma ProbesMeetTheEdge(z: Zone, i: nat, probe: int, left: nat)
    requires ValidZone(z) && i < |z.trans| && InGap(z, i, probe)
    ensures ProbeFrom(z, probe, left) ==
      if GapEdge(z, i) - FloorMinute(probe) <= 60 * left then Some(Aware(GapEdge(z, i), false)) else None
    decreases left, probe
  {
    var e, p := GapEdge(z, i), FloorMinute(probe + 60);
    assert p == FloorMinute(probe) + 60;
    EdgeExists(z, i);
    assert p <= e;
    if left == 0 || p == e {
    } else {
      GapPosition(z, i, p);
      ProbesMeetTheEdge(z, i, probe + 60, left - 1);
    }
  }

  /** Every wall time inside one gap fires as the instant the clock jumps past the gap, provided the
      bounded scan reaches it. */
  lemma GapFiresAtEdge(z: Zone, i: nat, w: int)
    requires ValidZone(z) && i < |z.trans| && InGap(z, i, w)
    ensures FireOf(z, w) == if EdgeInReach(z, i, w) then Some(Aware(GapEdge(z, i), false)) else None
    ensures Utc(z, Aware(GapEdge(z, i), false)) == z.trans[i].at
  {
    GapPosition(z, i, w);
    EdgeExists(z, i);
    assert SoundAt(z, i);
    ProbesMeetTheEdge(z, i, w, 180);
  }

  // ---- order ---------------------------------------------------------------------------------

  /** A wall time that fires does so before the next transition takes hold, or exactly then. */
  lemma FireBounds(z: Zone, w: int) returns (i: nat, u: int)
    requires ValidZone(z) && FireOf(z, w).Some?
    ensures i == WallIndex(z, w, false) <= |z.trans| && u == Utc(z, FireOf(z, w).value)
    ensures i > 0 ==> z.trans[i - 1].at <= u
    ensures i < |z.trans| ==> u <= z.trans[i].at
    ensures i < |z.trans| && InGap(z, i, w) ==> u == z.trans[i].at && Localise(z, w) == None
    ensures !(i < |z.trans| && InGap(z, i, w)) ==>
              && FireOf(z, w) == Some(Aware(w, false)) && u == w - Off(z, i) && Local(z, u) == w
              && (i < |z.trans| ==> u < z.trans[i].at)
  {
    i, u := WallPosition(z, w);
    if i < |z.trans| && InGap(z, i, w) {
      GapFiresAtEdge(z, i, w);
      u := z.trans[i].at;
      if i > 0 { Apart(z, i - 1, i); }
    }
  }

  /** Fires follow the order of the wall times they come from, across any number of transitions. */
  lemma FiresInWallOrder(z: Zone, w: int, w': int)
    requires ValidZone(z) && w <= w' && FireOf(z, w).Some? && FireOf(z, w').Some?
    ensures Utc(z, FireOf(z, w).value) <= Utc(z, FireOf(z, w').value)
    ensures w < w' && Localise(z, w).Some? && Localise(z, w').Some?
            ==> Utc(z, FireOf(z, w).value) < Utc(z, FireOf(z, w').value)
  {
    hide FireOf, Utc, Localise;
    var i, u := FireBounds(z, w);
    var j, u' := FireBounds(z, w');
    WallIndicesOrdered(z, w, w');
    if i + 1 < j { Apart(z, i, j - 1); }
  }

  lemma {:induction false} WallPassedOrdered(z: Zone, w: int, w': int, n: nat)
    requires w <= w' && n <= |z.trans|
    ensures WallPassed(z, w, false, n) <= WallPassed(z, w', false, n)
    decreases n
  {
    if n == 0 {
    } else {
      WallPassedOrdered(z, w, w', n - 1);
    }
  }

  lemma WallIndicesOrdered(z: Zone, w: int, w': int)
    requires w <= w'
    ensures WallIndex(z, w, false) <= WallIndex(z, w', false)
  {
    WallPassedOrdered(z, w, w', |z.trans|);
  }

  /** A wall time not later than the clock's reading at `u` fires no later than `u`. */
  lemma PastWallsFireInThePast(z: Zone, w: int, u: int)
    requires ValidZone(z) && w <= Local(z, u) && FireOf(z, w).Some?
    ensures Utc(z, FireOf(z, w).value) <= u
  {
    LocaliseIsFirstPass(z, Local(z, u), u);
    FiresInWallOrder(z, w, Local(z, u));
  }
}

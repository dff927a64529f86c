/** Starting everything: the waves in which services start, and what they guarantee. */
module Startup {
  import opened Ranges
  import opened Wrappers
  import opened Services

  /** What does not change during startup: the registered services, the capability index, and the names
      that were already started. */
  datatype Env = Env(registered: map<string, Service>, index: map<string, seq<string>>, before: set<string>)

  // ---- the three tests -----------------------------------------------------------------------

  /** Every required capability, and every one named by an enablement dependency, is published. */
  predicate CapsSatisfied(svc: Service, published: set<string>) {
    svc.needs <= published && forall i :: 0 <= i < |svc.needsEnabled| ==> svc.needsEnabled[i].capability in published
  }

  /** An optional capability is unpublished and some service still waiting provides it. */
  predicate OptionalPending(svc: Service, published: set<string>, remaining: set<string>,
                            index: map<string, seq<string>>)
  {
    exists cap :: cap in svc.optional && cap !in published && exists p :: p in Lookup(index, cap) && p in remaining
  }

  /** The first unmet enablement dependency among those from `i` on. */
  function Unmet(env: Env, deps: seq<EnablementDep>, running: set<string>): Option<Reason> {
    if deps == [] then None
    else
      var dep := deps[0];
      var owner := FirstRunning(Lookup(env.index, dep.capability), running);
      if owner.None? || owner.value !in env.registered then Some(OwnerMissing(dep.capability))
      else
        var svc := env.registered[owner.value];
        if dep.backend != "" && (svc.enabledBackends.None? || dep.backend !in svc.enabledBackends.value)
        then Some(BackendOff(dep.backend))
        else if dep.backend == "" && !svc.enabled then Some(ServiceOff(dep.capability))
        else Unmet(env, deps[1..], running)
  }

  /** The running owner of the named capability has the named backend enabled, or is itself enabled. */
  ghost predicate DepMet(env: Env, dep: EnablementDep, running: set<string>) {
    var owner := FirstRunning(Lookup(env.index, dep.capability), running);
    && owner.Some? && owner.value in env.registered
    && (if dep.backend == "" then env.registered[owner.value].enabled
        else env.registered[owner.value].enabledBackends.Some?
             && dep.backend in env.registered[owner.value].enabledBackends.value)
  }

  /** Dependency `i` is the first of `deps` that is not met. */
  ghost predicate FirstNotMet(env: Env, deps: seq<EnablementDep>, running: set<string>, i: int) {
    0 <= i < |deps| && !DepMet(env, deps[i], running) && forall j :: 0 <= j < i ==> DepMet(env, deps[j], running)
  }

  /** The reason says what is wrong with an unmet dependency: nobody provides the capability, or its owner has
      the backend off, or is itself off. */
  ghost predicate Blames(env: Env, reason: Reason, dep: EnablementDep, running: set<string>) {
    var owner := FirstRunning(Lookup(env.index, dep.capability), running);
    match reason
    case OwnerMissing(cap) => cap == dep.capability && (owner.None? || owner.value !in env.registered)
    case BackendOff(backend) => backend == dep.backend != "" && owner.Some? && owner.value in env.registered
    case ServiceOff(cap) => cap == dep.capability && dep.backend == "" && owner.Some? && owner.value in env.registered
    case Unavailable(_) => false
  }

  /** No reason is given exactly when every dependency is met; a reason given names the first that is not. */
  lemma {:induction false} UnmetMeans(env: Env, deps: seq<EnablementDep>, running: set<string>)
    ensures match Unmet(env, deps, running)
            case None => forall i :: 0 <= i < |deps| ==> DepMet(env, deps[i], running)
            case Some(reason) => exists i :: FirstNotMet(env, deps, running, i) && Blames(env, reason, deps[i], running)
    decreases |deps|
  {
    hide FirstRunning;
    if deps == [] {
    } else if DepMet(env, deps[0], running) {
      var rest := deps[1..];
      assert forall i :: 0 < i < |deps| ==> deps[i] == rest[i - 1];
      UnmetMeans(env, rest, running);
      if Unmet(env, rest, running).Some? {
        var i :| FirstNotMet(env, rest, running, i) && Blames(env, Unmet(env, rest, running).value, rest[i], running);
        assert FirstNotMet(env, deps, running, i + 1);
      }
    } else {
      assert FirstNotMet(env, deps, running, 0);
    }
  }

  // ---- what has happened after the waves `ws` ------------------------------------------------

  ghost function Attempted(ws: seq<set<string>>): set<string> {
    if ws == [] then {} else Attempted(ws[..|ws| - 1]) + ws[|ws| - 1]
  }

  /** Those whose enablement dependencies were met, so that `start()` was called. */
  ghost function Tried(env: Env, ws: seq<set<string>>): set<string>
    decreases |ws|, 0
  {
    if ws == [] then {}
    else
      var earlier := ws[..|ws| - 1];
      Tried(env, earlier) + Startable(env, ws[|ws| - 1], Running(env, earlier))
  }

  ghost function Startable(env: Env, wave: set<string>, running: set<string>): set<string> {
    set name | name in wave && name in env.registered && Unmet(env, env.registered[name].needsEnabled, running).None?
  }

  ghost function Running(env: Env, ws: seq<set<string>>): set<string>
    decreases |ws|, 1
  {
    env.before + Succeeding(env, Tried(env, ws))
  }

  ghost function Succeeding(env: Env, names: set<string>): set<string> {
    set name | name in names && name in env.registered && env.registered[name].startSucceeds
  }

  ghost function Failing(env: Env, names: set<string>): set<string> {
    set name | name in names && name in env.registered && !env.registered[name].startSucceeds
  }

  ghost function CapsOf(env: Env, names: set<string>): set<string> {
    set name, cap | name in names && name in env.registered && cap in env.registered[name].capabilities :: cap
  }

  ghost function Published(env: Env, ws: seq<set<string>>): set<string> {
    CapsOf(env, Tried(env, ws) * Running(env, ws))
  }

  ghost function Remaining(env: Env, ws: seq<set<string>>): set<string> {
    env.registered.Keys - Attempted(ws)
  }

  ghost function Ready(env: Env, ws: seq<set<string>>): set<string> {
    set name | name in Remaining(env, ws) && CapsSatisfied(env.registered[name], Published(env, ws))
  }

  ghost function Preferred(env: Env, ws: seq<set<string>>): set<string> {
    set name | name in Ready(env, ws)
      && !OptionalPending(env.registered[name], Published(env, ws), Remaining(env, ws), env.index)
  }

  /** The wave that follows `ws`: the ready services, or only those with no optional capability pending
      when there are any. */
  ghost function NextWave(env: Env, ws: seq<set<string>>): set<string> {
    if Preferred(env, ws) != {} then Preferred(env, ws) else Ready(env, ws)
  }

  ghost predicate InWaves(env: Env, ws: seq<set<string>>) {
    ws == [] ||
    (var earlier := ws[..|ws| - 1];
     InWaves(env, earlier) && Ready(env, earlier) != {} && ws[|ws| - 1] == NextWave(env, earlier))
  }

  /** Startup runs wave after wave until nothing is ready. */
  ghost predicate IsStartup(env: Env, ws: seq<set<string>>) {
    InWaves(env, ws) && Ready(env, ws) == {}
  }

  // ---- elementary facts ----------------------------------------------------------------------

  lemma {:induction false} WaveIsNext(env: Env, ws: seq<set<string>>, k: nat)
    requires InWaves(env, ws) && k < |ws|
    ensures InWaves(env, ws[..k]) && Ready(env, ws[..k]) != {} && ws[k] == NextWave(env, ws[..k])
    decreases |ws|
  {
    var init := ws[..|ws| - 1];
    if k == |init| {
    } else {
      WaveIsNext(env, init, k);
      assert init[..k] == ws[..k];
    }
  }

  lemma {:induction false} AttemptedMeans(ws: seq<set<string>>, name: string)
    ensures name in Attempted(ws) <==> exists k :: 0 <= k < |ws| && name in ws[k]
    decreases |ws|
  {
    if ws == [] {
    } else {
      AttemptedMeans(ws[..|ws| - 1], name);
    }
  }

  lemma {:induction false} TriedGrows(env: Env, ws: seq<set<string>>, k: nat)
    requires k <= |ws|
    ensures Tried(env, ws[..k]) <= Tried(env, ws) && Attempted(ws[..k]) <= Attempted(ws)
    ensures Tried(env, ws) <= Attempted(ws)
    decreases |ws|
  {
    var init := if ws == [] then [] else ws[..|ws| - 1];
    if k < |ws| {
      TriedGrows(env, init, k);
      assert init[..k] == ws[..k];
    } else {
      assert ws[..k] == ws;
      if ws == [] {
      } else {
        TriedGrows(env, init, 0);
      }
    }
  }

  /** Whoever is attempted is so in a wave before which all its capabilities were published, and was not
      attempted earlier. */
  lemma AttemptedWhenSatisfied(env: Env, ws: seq<set<string>>, k: nat, name: string)
    requires InWaves(env, ws) && k < |ws| && name in ws[k]
    ensures name in env.registered && name !in Attempted(ws[..k])
    ensures CapsSatisfied(env.registered[name], Published(env, ws[..k]))
  {
    hide Published, Tried;
    WaveIsNext(env, ws, k);
  }

  /** No service is attempted in two waves. */
  lemma WavesAreDisjoint(env: Env, ws: seq<set<string>>, j: nat, k: nat)
    requires InWaves(env, ws) && j < k < |ws|
    ensures ws[j] !! ws[k]
  {
    hide Published, Tried;
    forall name | name in ws[j] ensures name !in ws[k] {
      AttemptedMeans(ws[..k], name);
      assert ws[..k][j] == ws[j];
      if name in ws[k] { AttemptedWhenSatisfied(env, ws, k, name); }
    }
  }

  lemma {:induction false} TriedMeans(env: Env, ws: seq<set<string>>, k: nat, name: string)
    requires InWaves(env, ws) && k < |ws| && name in ws[k]
    ensures name in Tried(env, ws) <==> name in Startable(env, ws[k], Running(env, ws[..k]))
    decreases |ws|
  {
    hide NextWave, Startable, Running;
    var init := ws[..|ws| - 1];
    if k < |init| {
      TriedMeans(env, init, k, name);
      assert init[..k] == ws[..k];
      WavesAreDisjoint(env, ws, k, |ws| - 1);
      StartableWithin(env, ws[|ws| - 1], Running(env, init));
    } else {
      AttemptedWhenSatisfied(env, ws, k, name);
      TriedGrows(env, init, 0);
    }
  }

  lemma StartableWithin(env: Env, wave: set<string>, running: set<string>)
    ensures Startable(env, wave, running) <= wave
  {
  }

  /** A service reached in a wave is started, or at least tried, if and only if every one of its enablement
      dependencies is met by what was running before that wave; otherwise it is left disabled. */
  lemma EnablementGates(env: Env, ws: seq<set<string>>, k: nat, name: string)
    requires InWaves(env, ws) && k < |ws| && name in ws[k] && name in env.registered
    ensures name in Tried(env, ws) <==>
      forall i :: 0 <= i < |env.registered[name].needsEnabled| ==>
        DepMet(env, env.registered[name].needsEnabled[i], Running(env, ws[..k]))
  {
    hide DepMet, Unmet, Running, InWaves, Tried;
    TriedMeans(env, ws, k, name);
    UnmetMeans(env, env.registered[name].needsEnabled, Running(env, ws[..k]));
  }

  // ---- the waves are determined --------------------------------------------------------------

  lemma WaveIsTaken(env: Env, ws: seq<set<string>>)
    requires Ready(env, ws) != {}
    ensures Remaining(env, ws + [NextWave(env, ws)]) < Remaining(env, ws)
  {
    hide Published, OptionalPending, CapsSatisfied;
    var longer := ws + [NextWave(env, ws)];
    assert longer[..|longer| - 1] == ws;
    assert NextWave(env, ws) != {} && NextWave(env, ws) <= Remaining(env, ws);
    var name :| name in NextWave(env, ws);
    assert name in Remaining(env, ws) && name !in Remaining(env, longer);
  }

  ghost function WavesFrom(env: Env, ws: seq<set<string>>): seq<set<string>>
    decreases |Remaining(env, ws)|
  {
    if Ready(env, ws) == {} then ws
    else
      WaveIsTaken(env, ws);
      SubsetsAreSmaller(Remaining(env, ws + [NextWave(env, ws)]), Remaining(env, ws));
      WavesFrom(env, ws + [NextWave(env, ws)])
  }

  /** The waves in which the services start, worked out from what is registered and started before. */
  ghost function Waves(env: Env): seq<set<string>> { WavesFrom(env, []) }

  lemma {:induction false} WavesFromStops(env: Env, ws: seq<set<string>>)
    requires InWaves(env, ws)
    ensures IsStartup(env, WavesFrom(env, ws))
    decreases |Remaining(env, ws)|
  {
    hide Ready, NextWave, Remaining;
    if Ready(env, ws) == {} {
    } else {
      var longer := ws + [NextWave(env, ws)];
      WaveIsTaken(env, ws);
      SubsetsAreSmaller(Remaining(env, longer), Remaining(env, ws));
      assert longer[..|longer| - 1] == ws;
      WavesFromStops(env, longer);
    }
  }

  lemma {:induction false} WavesFromFinds(env: Env, ws: seq<set<string>>, k: nat)
    requires IsStartup(env, ws) && k <= |ws|
    ensures WavesFrom(env, ws[..k]) == ws
    decreases |ws| - k
  {
    hide Ready, NextWave, Remaining;
    if k == |ws| {
      assert ws[..k] == ws;
    } else {
      WaveIsNext(env, ws, k);
      assert ws[..k] + [ws[k]] == ws[..k + 1];
      WavesFromFinds(env, ws, k + 1);
    }
  }

  /** Startup always comes to an end, and in one way only: the order in which the services of a wave complete
      has no influence on later waves. */
  lemma WavesAreDetermined(env: Env, ws: seq<set<string>>)
    ensures IsStartup(env, ws) <==> ws == Waves(env)
  {
    WavesFromStops(env, []);
    if IsStartup(env, ws) {
      assert ws[..0] == [];
      WavesFromFinds(env, ws, 0);
    }
  }

  // ---- the started set is a least fixpoint ---------------------------------------------------

  ghost predicate NoEnablement(env: Env) {
    forall name :: name in env.registered ==> env.registered[name].needsEnabled == []
  }

  /** The services of `names` that are up once attempted. */
  ghost function Up(env: Env, names: set<string>): set<string> {
    set name | name in names && name in env.registered && (env.registered[name].startSucceeds || name in env.before)
  }

  /** `names` holds every service whose required capabilities its own members publish. */
  ghost predicate Closed(env: Env, names: set<string>) {
    forall name :: name in env.registered && env.registered[name].needs <= CapsOf(env, Up(env, names)) ==> name in names
  }

  lemma {:induction false} TriedIsAttempted(env: Env, ws: seq<set<string>>)
    requires InWaves(env, ws) && NoEnablement(env)
    ensures Tried(env, ws) == Attempted(ws) <= env.registered.Keys
    ensures Published(env, ws) == CapsOf(env, Up(env, Attempted(ws)))
    decreases |ws|
  {
    hide Published, NextWave, CapsSatisfied;
    if ws == [] {
    } else {
      TriedIsAttempted(env, ws[..|ws| - 1]);
      forall name | name in ws[|ws| - 1] ensures name in env.registered {
        AttemptedWhenSatisfied(env, ws, |ws| - 1, name);
      }
    }
    PublishedIsUp(env, ws);
  }

  lemma PublishedIsUp(env: Env, ws: seq<set<string>>)
    requires Tried(env, ws) == Attempted(ws)
    ensures Published(env, ws) == CapsOf(env, Up(env, Attempted(ws)))
  {
    assert forall name :: name in env.registered ==>
      (name in Tried(env, ws) * Running(env, ws) <==> name in Up(env, Attempted(ws)));
  }

  lemma CapsGrow(env: Env, a: set<string>, b: set<string>)
    requires a <= b
    ensures CapsOf(env, Up(env, a)) <= CapsOf(env, Up(env, b))
  {
  }

  lemma {:induction false} AttemptedWithinClosed(env: Env, ws: seq<set<string>>, names: set<string>)
    requires InWaves(env, ws) && NoEnablement(env) && Closed(env, names)
    ensures Attempted(ws) <= names
    decreases |ws|
  {
    hide Published, NextWave, CapsOf, Up;
    if ws == [] {
    } else {
      var earlier := ws[..|ws| - 1];
      AttemptedWithinClosed(env, earlier, names);
      TriedIsAttempted(env, earlier);
      CapsGrow(env, Attempted(earlier), names);
      forall name | name in ws[|ws| - 1] ensures name in names {
        AttemptedWhenSatisfied(env, ws, |ws| - 1, name);
      }
    }
  }

  lemma AttemptedIsClosed(env: Env, ws: seq<set<string>>)
    requires IsStartup(env, ws) && NoEnablement(env)
    ensures Closed(env, Attempted(ws))
  {
    hide Published, CapsOf, Up, Attempted;
    TriedIsAttempted(env, ws);
    forall name | name in env.registered && env.registered[name].needs <= CapsOf(env, Up(env, Attempted(ws)))
      ensures name in Attempted(ws)
    {
      assert name in Attempted(ws) || name in Ready(env, ws);
    }
  }

  /** Without enablement dependencies, the services whose `start()` is called are the least set closed under
      "its required capabilities are published by members that are up", and those started are its members
      that succeed. Optional capabilities and the order within a wave play no part in it. */
  lemma StartedIsLeastFixpoint(env: Env, ws: seq<set<string>>)
    requires IsStartup(env, ws) && NoEnablement(env)
    ensures Closed(env, Attempted(ws))
    ensures forall names :: Closed(env, names) ==> Attempted(ws) <= names
    ensures Running(env, ws) == env.before + Succeeding(env, Attempted(ws))
  {
    AttemptedIsClosed(env, ws);
    TriedIsAttempted(env, ws);
    forall names | Closed(env, names) ensures Attempted(ws) <= names {
      AttemptedWithinClosed(env, ws, names);
    }
  }

  /** Two managers whose services differ only in their optional capabilities, and perhaps in the order of
      their index entries, start the same services. */
  lemma OptionalNeverChangesWhoStarts(env: Env, ws: seq<set<string>>, env': Env, ws': seq<set<string>>)
    requires IsStartup(env, ws) && NoEnablement(env) && IsStartup(env', ws') && NoEnablement(env')
    requires env.before == env'.before && env.registered.Keys == env'.registered.Keys
    requires forall name :: name in env.registered ==>
      env'.registered[name] == env.registered[name].(optional := env'.registered[name].optional)
    ensures Attempted(ws) == Attempted(ws') && Running(env, ws) == Running(env', ws')
  {
    hide Attempted, Running, Ready, InWaves;
    StartedIsLeastFixpoint(env, ws);
    StartedIsLeastFixpoint(env', ws');
    forall names ensures Closed(env, names) <==> Closed(env', names) {
      SameClosure(env, env', names);
    }
    assert Succeeding(env, Attempted(ws)) == Succeeding(env', Attempted(ws));
  }

  lemma SameClosure(env: Env, env': Env, names: set<string>)
    requires env.before == env'.before && env.registered.Keys == env'.registered.Keys
    requires forall name :: name in env.registered ==>
      env'.registered[name] == env.registered[name].(optional := env'.registered[name].optional)
    ensures Closed(env, names) <==> Closed(env', names)
  {
    assert Up(env, names) == Up(env', names);
    assert CapsOf(env, Up(env, names)) == CapsOf(env', Up(env', names));
  }

  // ---- optional capabilities come first where they can ---------------------------------------

  ghost predicate Wants(svc: Service, cap: string) { cap in svc.needs || cap in svc.optional }

  ghost predicate Provides(env: Env, p: string, cap: string) {
    p in env.registered && cap in env.registered[p].capabilities
  }

  /** Providers rank below consumers, over required and optional capabilities together: the provider graph
      is acyclic. */
  ghost predicate Ranked(env: Env, rank: map<string, nat>) {
    && env.registered.Keys <= rank.Keys
    && forall p, name, cap :: Provides(env, p, cap) && name in env.registered && Wants(env.registered[name], cap)
         ==> rank[p] < rank[name]
  }

  /** Every start succeeds, every required capability has a provider, and nothing gates on enablement. */
  ghost predicate Benign(env: Env) {
    && NoEnablement(env)
    && (forall name :: name in env.registered ==> env.registered[name].startSucceeds)
    && (forall name, cap :: name in env.registered && cap in env.registered[name].needs ==>
          exists p :: Provides(env, p, cap))
  }

  /** The index lists exactly the providers of each capability. */
  ghost predicate IndexSound(env: Env) {
    IndexAgrees(env.registered, env.index)
  }

  /** Not attempted in the waves `ws`, though all it needs has been published by them. */
  ghost predicate MayGo(env: Env, ws: seq<set<string>>, name: string) {
    && name in env.registered && name !in Attempted(ws)
    && (forall cap :: cap in env.registered[name].needs ==> cap in Published(env, ws))
    && (forall i :: 0 <= i < |env.registered[name].needsEnabled| ==>
          env.registered[name].needsEnabled[i].capability in Published(env, ws))
  }

  /** Nobody who still waits provides an optional capability that it lacks. */
  ghost predicate Unhindered(env: Env, ws: seq<set<string>>, name: string)
    requires name in env.registered
  {
    forall cap, p :: cap in env.registered[name].optional && Provides(env, p, cap) && p !in Attempted(ws) ==>
      cap in Published(env, ws)
  }

  /** A wave holds exactly the services that may go and are unhindered or, when there are none of these, all
      that may go. */
  lemma WaveMeans(env: Env, ws: seq<set<string>>, k: nat, name: string)
    requires InWaves(env, ws) && k < |ws| && IndexSound(env)
    ensures var earlier := ws[..k];
            name in ws[k] <==>
              && MayGo(env, earlier, name)
              && (Unhindered(env, earlier, name)
                  || !exists other :: MayGo(env, earlier, other) && Unhindered(env, earlier, other))
  {
    hide Published, InWaves, Attempted, IndexAgrees, Ready;
    var earlier := ws[..k];
    WaveIsNext(env, ws, k);
    forall other ensures other in Ready(env, earlier) <==> MayGo(env, earlier, other) {
      ReadyMeans(env, earlier, other);
    }
    forall other | other in env.registered && MayGo(env, earlier, other)
      ensures other in Preferred(env, earlier) <==> Unhindered(env, earlier, other)
    {
      UnhinderedMeans(env, earlier, other);
    }
  }

  lemma ReadyMeans(env: Env, ws: seq<set<string>>, name: string)
    ensures name in Ready(env, ws) <==> MayGo(env, ws, name)
  {
    hide Published, Attempted;
  }

  lemma UnhinderedMeans(env: Env, ws: seq<set<string>>, name: string)
    requires IndexSound(env) && name in env.registered
    ensures OptionalPending(env.registered[name], Published(env, ws), Remaining(env, ws), env.index)
            <==> !Unhindered(env, ws, name)
  {
    hide Published, Attempted, IndexAgrees;
    forall cap, p ensures p in Lookup(env.index, cap) <==> Provides(env, p, cap) {
      assert IndexedAt(env.registered, env.index, cap) by { IndexSoundAt(env, cap); }
    }
  }

  /** A waiting service of least rank. */
  lemma LeastRank(rank: map<string, nat>, names: set<string>) returns (least: string)
    requires names != {} && names <= rank.Keys
    ensures least in names && forall name :: name in names ==> rank[least] <= rank[name]
    decreases |names|
  {
    least :| least in names;
    if names == {least} {
    } else {
      var other := LeastRank(rank, names - {least});
      if rank[other] < rank[least] { least := other; }
    }
  }

  /** A provider that is no longer waiting has published. */
  lemma PastProvidersPublished(env: Env, ws: seq<set<string>>, p: string, cap: string)
    requires InWaves(env, ws) && Benign(env) && Provides(env, p, cap) && p !in Remaining(env, ws)
    ensures cap in Published(env, ws)
  {
    hide Published, InWaves;
    TriedIsAttempted(env, ws);
    assert p in Up(env, Attempted(ws));
  }

  /** While services wait, the one of least rank is ready with nothing optional pending. */
  lemma SomeoneIsPreferred(env: Env, ws: seq<set<string>>, rank: map<string, nat>)
    requires InWaves(env, ws) && Benign(env) && Ranked(env, rank) && IndexSound(env) && Remaining(env, ws) != {}
    ensures Preferred(env, ws) != {}
  {
    hide Published, InWaves, Attempted, IndexAgrees, Remaining;
    assert Remaining(env, ws) <= env.registered.Keys by { WaitingAreRegistered(env, ws); }
    var least := LeastRank(rank, Remaining(env, ws));
    var svc := env.registered[least];
    forall p, cap | Provides(env, p, cap) && Wants(svc, cap) ensures cap in Published(env, ws) {
      PastProvidersPublished(env, ws, p, cap);
    }
    assert svc.needs <= Published(env, ws);
    assert least in Ready(env, ws);
    forall cap, p | cap in svc.optional && p in Lookup(env.index, cap) ensures cap in Published(env, ws) {
      assert IndexedAt(env.registered, env.index, cap) by { IndexSoundAt(env, cap); }
      assert Provides(env, p, cap);
    }
    assert least in Preferred(env, ws);
  }

  lemma WaitingAreRegistered(env: Env, ws: seq<set<string>>)
    ensures Remaining(env, ws) <= env.registered.Keys
  {
  }

  lemma IndexSoundAt(env: Env, cap: string)
    requires IndexSound(env)
    ensures IndexedAt(env.registered, env.index, cap)
  {
  }

  /** In an acyclic, benign system every service starts, and every capability it wants, required or
      optional, that has a provider at all is published in a strictly earlier wave. */
  lemma WantedComesFirst(env: Env, ws: seq<set<string>>, rank: map<string, nat>,
                         k: nat, name: string, cap: string, p: string)
    requires IsStartup(env, ws) && Benign(env) && Ranked(env, rank) && IndexSound(env)
    requires k < |ws| && name in ws[k] && name in env.registered && Wants(env.registered[name], cap)
    requires Provides(env, p, cap)
    ensures cap in Published(env, ws[..k])
    ensures Attempted(ws) == env.registered.Keys
  {
    hide Published, InWaves, Attempted, IndexAgrees;
    if Remaining(env, ws) != {} {
      SomeoneIsPreferred(env, ws, rank);
    }
    assert Attempted(ws) <= env.registered.Keys by { TriedIsAttempted(env, ws); }
    WaveIsNext(env, ws, k);
    AttemptedWhenSatisfied(env, ws, k, name);
    SomeoneIsPreferred(env, ws[..k], rank);
    assert IndexedAt(env.registered, env.index, cap) by { IndexSoundAt(env, cap); }
    if p !in Remaining(env, ws[..k]) {
      PastProvidersPublished(env, ws[..k], p, cap);
    } else {
      assert name in Preferred(env, ws[..k]);
      assert p in Lookup(env.index, cap);
    }
  }
}

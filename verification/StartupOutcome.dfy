/** What `start_all` guarantees about the lists it leaves behind. */
module StartupOutcome {
  import opened Wrappers
  import opened Services
  import opened Startup
  import opened ServiceManager

  ghost predicate NothingRecorded(s: State) {
    s.started == [] && s.failed == {} && s.disabled == map[]
  }

  /** Every registered service ends up in exactly one of started, failed and disabled, and nothing else
      does. */
  lemma EveryoneHasOneOutcome(s: State, t: State, ws: seq<set<string>>, name: string)
    requires NothingRecorded(s) && StartedEverything(s, t, ws)
    ensures name in t.started ==> name in s.registered && name !in t.failed && name !in t.disabled
    ensures name in t.failed ==> name in s.registered && name !in t.disabled
    ensures name in t.disabled ==> name in s.registered
    ensures name in s.registered ==> name in t.started || name in t.failed || name in t.disabled
  {
    hide Tried, Attempted, InWaves, Published;
    var env := EnvOf(s);
    TriedGrows(env, ws, 0);
    AttemptedAreRegistered(env, ws);
    assert t.started[|s.started|..] == t.started;
  }

  lemma AttemptedAreRegistered(env: Env, ws: seq<set<string>>)
    requires InWaves(env, ws)
    ensures Attempted(ws) <= env.registered.Keys
  {
    hide InWaves, Published;
    forall name | name in Attempted(ws) ensures name in env.registered {
      AttemptedMeans(ws, name);
      var k :| 0 <= k < |ws| && name in ws[k];
      AttemptedWhenSatisfied(env, ws, k, name);
    }
  }

  lemma EarlierWaveEarlierPlace(env: Env, ws: seq<set<string>>, newly: seq<string>, i: nat, j: nat, k: nat)
    requires Launched(env, ws, newly) && i < |newly| && j < |newly| && k <= |ws|
    requires newly[i] in Attempted(ws[..k]) && newly[j] !in Attempted(ws[..k])
    ensures i < j
  {
  }

  /** Every capability a started service requires is provided by a service started strictly before it. */
  lemma RequirementsStartFirst(s: State, t: State, ws: seq<set<string>>, j: nat, cap: string) returns (i: nat)
    requires s.started == [] && StartedEverything(s, t, ws)
    requires j < |t.started| && t.started[j] in s.registered && cap in s.registered[t.started[j]].needs
    ensures i < j && t.started[i] in s.registered && cap in s.registered[t.started[i]].capabilities
  {
    hide Tried, Attempted, InWaves, NoDuplicates;
    var env := EnvOf(s);
    var name := t.started[j];
    assert t.started[|s.started|..] == t.started;
    assert name in t.started && name in Tried(env, ws);
    TriedGrows(env, ws, 0);
    AttemptedMeans(ws, name);
    var k :| 0 <= k < |ws| && name in ws[k];
    AttemptedWhenSatisfied(env, ws, k, name);
    assert cap in Published(env, ws[..k]);
    var provider :| provider in Tried(env, ws[..k]) && provider in Running(env, ws[..k])
                    && provider in env.registered && cap in env.registered[provider].capabilities;
    TriedGrows(env, ws, k);
    TriedGrows(env, ws[..k], 0);
    i :| 0 <= i < |t.started| && t.started[i] == provider;
    EarlierWaveEarlierPlace(env, ws, t.started, i, j, k);
  }

  /** From a state with nothing recorded and no enablement dependencies, what is started is exactly the
      succeeding part of the least fixpoint. */
  lemma StartedIsFixpointPart(s: State, t: State, ws: seq<set<string>>)
    requires s.started == [] && StartedEverything(s, t, ws) && NoEnablement(EnvOf(s))
    ensures Closed(EnvOf(s), Attempted(ws))
    ensures forall names :: Closed(EnvOf(s), names) ==> Attempted(ws) <= names
    ensures forall name :: name in t.started <==> name in Succeeding(EnvOf(s), Attempted(ws))
  {
    hide Tried, Attempted, InWaves, Closed, Ready;
    StartedIsLeastFixpoint(EnvOf(s), ws);
    TriedIsAttempted(EnvOf(s), ws);
    assert t.started[|s.started|..] == t.started;
  }

  // ---- who ends up where ---------------------------------------------------------------------

  /** Some started service declares the capability. */
  ghost predicate Declared(t: State, cap: string) {
    exists p :: p in t.started && p in t.registered && cap in t.registered[p].capabilities
  }

  /** The service was reached in wave `k`. */
  ghost predicate ReachedIn(ws: seq<set<string>>, k: int, name: string) { 0 <= k < |ws| && name in ws[k] }

  /** Its enablement dependencies were met by what ran before that wave. */
  ghost predicate MetBefore(env: Env, ws: seq<set<string>>, k: int, name: string) {
    && 0 <= k <= |ws| && name in env.registered
    && forall i :: 0 <= i < |env.registered[name].needsEnabled| ==>
         DepMet(env, env.registered[name].needsEnabled[i], Running(env, ws[..k]))
  }

  /** What it requires is declared by started services. */
  ghost predicate Supplied(t: State, svc: Service) { forall cap :: cap in svc.needs ==> Declared(t, cap) }

  /** So are the capabilities its enablement dependencies name. */
  ghost predicate Overseen(t: State, svc: Service) {
    forall i :: 0 <= i < |svc.needsEnabled| ==> Declared(t, svc.needsEnabled[i].capability)
  }

  /** Started from nothing, with any dependencies: a service runs if it was reached, its enablement dependencies
      were met and its start succeeds; it failed if its start did, or if it was never reached and something it
      requires is declared by nobody who started; it is disabled if an enablement dependency was unmet when it
      was reached, or if it was never reached and only capabilities of enablement dependencies are missing. */
  lemma EveryOutcomeMeans(s: State, t: State, ws: seq<set<string>>, name: string)
    requires NothingRecorded(s) && StartedEverything(s, t, ws) && name in s.registered
    ensures var env, svc := EnvOf(s), s.registered[name];
            && (name in t.started <==>
                  svc.startSucceeds && exists k :: ReachedIn(ws, k, name) && MetBefore(env, ws, k, name))
            && (name in t.failed <==>
                  || (!svc.startSucceeds && exists k :: ReachedIn(ws, k, name) && MetBefore(env, ws, k, name))
                  || ((forall k :: !ReachedIn(ws, k, name)) && !Supplied(t, svc)))
            && (name in t.disabled <==>
                  || (exists k :: ReachedIn(ws, k, name) && !MetBefore(env, ws, k, name))
                  || ((forall k :: !ReachedIn(ws, k, name)) && Supplied(t, svc) && !Overseen(t, svc)))
  {
    hide Tried, Attempted, InWaves, NoDuplicates, Published, Ready, DepMet, Running, Declared, Launched;
    var env, svc := EnvOf(s), s.registered[name];
    StartedAreTried(s, t, ws);
    AttemptedMeans(ws, name);
    TriedGrows(env, ws, 0);
    forall k | ReachedIn(ws, k, name) ensures name in Tried(env, ws) <==> MetBefore(env, ws, k, name) {
      EnablementGates(env, ws, k, name);
    }
    if name in Attempted(ws) {
      var k :| 0 <= k < |ws| && name in ws[k];
      assert ReachedIn(ws, k, name);
    } else {
      NeverReachedLacks(s, t, ws, name);
      assert name in Remaining(env, ws);
    }
  }

  lemma StartedAreTried(s: State, t: State, ws: seq<set<string>>)
    requires s.started == [] && StartedEverything(s, t, ws)
    ensures forall name :: name in t.started <==> name in Succeeding(EnvOf(s), Tried(EnvOf(s), ws))
    ensures forall cap :: cap in Published(EnvOf(s), ws) <==> Declared(t, cap)
  {
    hide Tried, Attempted, InWaves, NoDuplicates;
    var env := EnvOf(s);
    assert t.started[|s.started|..] == t.started;
    forall cap ensures cap in Published(env, ws) <==> Declared(t, cap) {
      if Declared(t, cap) {
        var p :| p in t.started && p in t.registered && cap in t.registered[p].capabilities;
        assert p in Tried(env, ws) * Running(env, ws);
      }
    }
  }

  lemma NeverReachedLacks(s: State, t: State, ws: seq<set<string>>, name: string)
    requires s.started == [] && StartedEverything(s, t, ws) && name in s.registered && name !in Attempted(ws)
    ensures var env, svc := EnvOf(s), s.registered[name];
            && (name in Starving(s.registered, Remaining(env, ws), Published(env, ws)) <==> !Supplied(t, svc))
            && (Supplied(t, svc) ==> !Overseen(t, svc))
  {
    hide Tried, Attempted, InWaves, NoDuplicates, Published, Declared, Launched;
    var env, svc := EnvOf(s), s.registered[name];
    StartedAreTried(s, t, ws);
    assert name in Remaining(env, ws) && name !in Ready(env, ws);
    if !Supplied(t, svc) {
      var cap :| cap in svc.needs && !Declared(t, cap);
      assert cap in svc.needs - Published(env, ws);
    }
  }

  /** An enablement dependency names the capability. */
  ghost predicate Watches(svc: Service, cap: string) {
    exists i :: 0 <= i < |svc.needsEnabled| && svc.needsEnabled[i].capability == cap
  }

  /** A service that is reached in a wave has everything it requires, and everything its enablement
      dependencies name, declared by services that started in earlier waves. */
  lemma ReachedIsSupplied(s: State, t: State, ws: seq<set<string>>, k: int, name: string, cap: string)
    returns (j: int, p: string)
    requires s.started == [] && StartedEverything(s, t, ws) && ReachedIn(ws, k, name) && name in s.registered
    requires || cap in s.registered[name].needs
             || Watches(s.registered[name], cap)
    ensures 0 <= j < k && ReachedIn(ws, j, p) && p in t.started
    ensures p in s.registered && cap in s.registered[p].capabilities
  {
    hide Tried, Attempted, InWaves, NoDuplicates, Ready;
    var env := EnvOf(s);
    AttemptedWhenSatisfied(env, ws, k, name);
    assert cap in Published(env, ws[..k]);
    p :| p in Tried(env, ws[..k]) && p in Running(env, ws[..k])
         && p in env.registered && cap in env.registered[p].capabilities;
    TriedGrows(env, ws, k);
    TriedGrows(env, ws[..k], 0);
    AttemptedMeans(ws[..k], p);
    j :| 0 <= j < |ws[..k]| && p in ws[..k][j];
    StartedAreTried(s, t, ws);
  }

  /** The reason recorded for a service started from nothing: the first enablement dependency unmet when it was
      reached, and what is wrong with it; or else the enablement capabilities that nobody who started
      declares. */
  lemma ReasonsAreRight(s: State, t: State, ws: seq<set<string>>, name: string)
    requires NothingRecorded(s) && StartedEverything(s, t, ws) && name in s.registered && name in t.disabled
    ensures var env, svc, reason := EnvOf(s), s.registered[name], t.disabled[name];
            || (exists k, i :: ReachedIn(ws, k, name) && FirstNotMet(env, svc.needsEnabled, Running(env, ws[..k]), i)
                               && Blames(env, reason, svc.needsEnabled[i], Running(env, ws[..k])))
            || ((forall k :: !ReachedIn(ws, k, name)) && reason.Unavailable?
                && forall cap :: cap in reason.missing <==>
                     !Declared(t, cap) && Watches(svc, cap))
  {
    hide Tried, Attempted, InWaves, NoDuplicates, Published, Ready, DepMet, Running, Declared, Launched, Blames;
    hide Unmet;
    var env, svc, reason := EnvOf(s), s.registered[name], t.disabled[name];
    StartedAreTried(s, t, ws);
    AttemptedMeans(ws, name);
    if name in Attempted(ws) - Tried(env, ws) {
      var k :| HeldFor(env, ws, k, name, reason);
      UnmetMeans(env, svc.needsEnabled, Running(env, ws[..k]));
      var i :| FirstNotMet(env, svc.needsEnabled, Running(env, ws[..k]), i)
               && Blames(env, reason, svc.needsEnabled[i], Running(env, ws[..k]));
      assert ReachedIn(ws, k, name);
    } else {
      assert name in Remaining(env, ws);
    }
  }

  // ---- calling it again ----------------------------------------------------------------------

  /** The services startup would start, worked out from what is registered and started before it. */
  ghost function Starts(env: Env): set<string> { Succeeding(env, Tried(env, Waves(env))) }

  /** Nothing is started, and nobody who would be is recorded as failed or disabled. */
  ghost predicate SafeToStart(s: State) {
    s.started == [] && forall name :: name in Starts(EnvOf(s)) ==> name !in s.failed && name !in s.disabled
  }

  /** `start_all` keeps the invariant if and only if nothing is started before the call and nobody it would
      start is recorded as failed or disabled: it appends without looking, and neither clears nor consults
      what earlier calls recorded. */
  lemma StartAllKeepsInvariantIff(s: State, t: State, ws: seq<set<string>>)
    requires Invariant(s) && StartedEverything(s, t, ws)
    ensures Invariant(t) <==> SafeToStart(s)
  {
    hide StartedEverything, IndexAgrees, Starts, NoDuplicates;
    if s.started != [] {
      StartingTwiceBreaks(s, t, ws);
    } else {
      StartedAre(s, t, ws);
    }
  }

  /** Started from nothing, those who start stay as they are in the other two lists. */
  lemma StartedAre(s: State, t: State, ws: seq<set<string>>)
    requires Invariant(s) && StartedEverything(s, t, ws) && s.started == []
    ensures NoDuplicates(t.started) && forall name :: name in t.started <==> name in Starts(EnvOf(s))
    ensures t.registered == s.registered && t.capabilities == s.capabilities
    ensures t.failed <= t.registered.Keys && t.disabled.Keys <= t.registered.Keys
    ensures forall name :: name in t.started ==>
              && name in t.registered
              && (name in t.failed <==> name in s.failed) && (name in t.disabled <==> name in s.disabled)
  {
    hide Tried, Attempted, InWaves, Published, IndexAgrees, Ready, Waves, NoDuplicates;
    var env := EnvOf(s);
    WavesAreDetermined(env, ws);
    TriedGrows(env, ws, 0);
    AttemptedAreRegistered(env, ws);
    assert t.started[|s.started|..] == t.started;
  }

  /** Without enablement dependencies, those who would start are the registered services whose start
      succeeds and that lie in every closed set. */
  lemma StartsAreInEveryClosedSet(env: Env, name: string)
    requires NoEnablement(env)
    ensures name in Starts(env) <==>
      && name in env.registered && env.registered[name].startSucceeds
      && forall names :: Closed(env, names) ==> name in names
  {
    hide Closed, Waves, Attempted, InWaves, Ready, Tried;
    var ws := Waves(env);
    WavesAreDetermined(env, ws);
    StartedIsLeastFixpoint(env, ws);
    TriedIsAttempted(env, ws);
  }

  /** A service that was started already is started again, or becomes failed or disabled as well. */
  lemma StartingTwiceBreaks(s: State, t: State, ws: seq<set<string>>)
    requires Invariant(s) && StartedEverything(s, t, ws) && s.started != []
    ensures !Invariant(t)
  {
    hide Tried, Attempted, InWaves, Published, IndexAgrees, Ready;
    var env := EnvOf(s);
    var name := s.started[0];
    assert name in s.started && name in s.registered;
    assert t.started[0] == name;
    var newly := t.started[|s.started|..];
    if name in newly {
      var i :| 0 <= i < |newly| && newly[i] == name;
      assert t.started[|s.started| + i] == name;
    } else {
      assert name in t.failed || name in t.disabled.Keys;
    }
  }

  /** Those startup would record as failed: the ones whose start fails or that lack a required capability. */
  ghost function Fails(env: Env): set<string> {
    var ws := Waves(env);
    Failing(env, Tried(env, ws)) + Starving(env.registered, Remaining(env, ws), Published(env, ws))
  }

  /** Those it would record as disabled: the ones held back or never reached for an enablement dependency. */
  ghost function Disables(env: Env): set<string> {
    var ws := Waves(env);
    var starving := Starving(env.registered, Remaining(env, ws), Published(env, ws));
    (Attempted(ws) - Tried(env, ws)) + (Remaining(env, ws) - starving)
  }

  /** Without enablement dependencies nobody is disabled, and everyone who would not start fails: those whose
      start fails, and those outside some closed set. */
  lemma FailsAreTheRest(env: Env)
    requires NoEnablement(env)
    ensures Disables(env) == {} && Fails(env) == env.registered.Keys - Starts(env)
    ensures forall name :: name in Fails(env) <==>
      && name in env.registered
      && (!env.registered[name].startSucceeds || exists names :: Closed(env, names) && name !in names)
  {
    hide Closed, Waves, Published, InWaves, Tried, Attempted;
    var ws := Waves(env);
    WavesAreDetermined(env, ws);
    TriedIsAttempted(env, ws);
    forall name ensures name in Starts(env) <==>
        && name in env.registered && env.registered[name].startSucceeds
        && forall names :: Closed(env, names) ==> name in names
    {
      StartsAreInEveryClosedSet(env, name);
    }
    forall name | name in Remaining(env, ws)
      ensures name in Starving(env.registered, Remaining(env, ws), Published(env, ws))
    {
      assert name !in Ready(env, ws) && env.registered[name].needsEnabled == [];
      var cap :| cap in env.registered[name].needs && cap !in Published(env, ws);
      assert cap in env.registered[name].needs - Published(env, ws);
    }
  }

  /** `start_all` keeps failed and disabled services apart if and only if it fails none that was disabled and
      disables none that had failed. */
  lemma StartAllKeepsApartIff(s: State, t: State, ws: seq<set<string>>)
    requires s.failed !! s.disabled.Keys && StartedEverything(s, t, ws)
    ensures t.failed !! t.disabled.Keys <==>
      Fails(EnvOf(s)) !! s.disabled.Keys && s.failed !! Disables(EnvOf(s))
  {
    hide Tried, Attempted, Published, Waves, Starving, Failing, Ready, InWaves;
    var env := EnvOf(s);
    WavesAreDetermined(env, ws);
    TriedGrows(env, ws, 0);
    FailsApartFromDisables(env, ws);
  }

  lemma FailsApartFromDisables(env: Env, ws: seq<set<string>>)
    requires ws == Waves(env)
    ensures Fails(env) !! Disables(env)
  {
    hide Tried, Attempted, Published, Waves;
    TriedGrows(env, ws, 0);
  }

  /** One service that needs nothing, already started: calling startup lists it twice. */
  lemma StartingTwiceListsTwice() returns (s: State, t: State)
    ensures Invariant(s) && s.started == ["a"] && s.failed == {} && s.disabled == map[]
    ensures StartedEverything(s, t, [{"a"}]) && t.started == ["a", "a"] && !Invariant(t)
  {
    var svc := Service("a", {}, {}, {}, [], true, true, None);
    s := State(map["a" := svc], map[], ["a"], {}, map[]);
    t := s.(started := ["a", "a"]);
    forall cap ensures IndexedAt(s.registered, s.capabilities, cap) {
    }
    OneWave(EnvOf(s), "a");
    assert t.started[|s.started|..] == ["a"];
    assert t.started[0] == t.started[1];
  }

  lemma OneWave(env: Env, name: string)
    requires env.registered.Keys == {name} && env.registered[name].startSucceeds
    requires env.registered[name].needs == {} && env.registered[name].optional == {}
    requires env.registered[name].needsEnabled == []
    ensures IsStartup(env, [{name}]) && Attempted([{name}]) == {name} && Tried(env, [{name}]) == {name}
  {
    var ws := [{name}];
    assert ws[..|ws| - 1] == [];
    assert CapsSatisfied(env.registered[name], Published(env, []));
    assert Ready(env, []) == {name} == Preferred(env, []);
    assert Startable(env, {name}, Running(env, [])) == {name};
    assert Remaining(env, ws) == {};
  }

  // ---- a whole life --------------------------------------------------------------------------

  datatype Call = Plain(op: Operation) | StartAll

  ghost predicate Does(call: Call, s: State, t: State) {
    match call
    case Plain(op) => t == Apply(s, op)
    case StartAll => exists ws :: StartedEverything(s, t, ws)
  }

  /** `states` are those a manager goes through as it answers `calls`, one after the other. */
  ghost predicate IsLife(states: seq<State>, calls: seq<Call>) {
    |states| == |calls| + 1 && forall k :: 0 <= k < |calls| ==> Does(calls[k], states[k], states[k + 1])
  }

  /** Whatever is called in whatever order, startup included, the manager is consistent throughout its life
      if and only if startup is called only where it is safe. */
  lemma {:induction false} LifeKeepsInvariantIff(states: seq<State>, calls: seq<Call>)
    requires IsLife(states, calls) && Invariant(states[0])
    ensures (forall k :: 0 <= k < |states| ==> Invariant(states[k])) <==>
      (forall k :: 0 <= k < |calls| && calls[k] == StartAll ==> SafeToStart(states[k]))
    decreases |calls|
  {
    hide Invariant, SafeToStart, StartedEverything, Apply;
    if calls == [] {
    } else {
      var n := |calls| - 1;
      LifeKeepsInvariantIff(states[..n + 1], calls[..n]);
      if Invariant(states[n]) {
        CallKeepsInvariantIff(calls[n], states[n], states[n + 1]);
      }
    }
  }

  lemma CallKeepsInvariantIff(call: Call, s: State, t: State)
    requires Invariant(s) && Does(call, s, t)
    ensures Invariant(t) <==> (call == StartAll ==> SafeToStart(s))
  {
    hide Invariant, SafeToStart, StartedEverything, Apply;
    match call
    case Plain(op) => OperationKeepsInvariant(s, op);
    case StartAll =>
      var ws :| StartedEverything(s, t, ws);
      StartAllKeepsInvariantIff(s, t, ws);
  }

  /** Consistent, and nothing is both failed and disabled. */
  ghost predicate Apart(s: State) { Invariant(s) && s.failed !! s.disabled.Keys }

  /** The call starts nothing anew that an earlier call recorded as started, failed or disabled, and records
      nobody as failed who was disabled or the other way round. */
  ghost predicate Clear(call: Call, s: State) {
    match call
    case Plain(op) => !FailsDisabled(s, op)
    case StartAll => SafeToStart(s) && Fails(EnvOf(s)) !! s.disabled.Keys && s.failed !! Disables(EnvOf(s))
  }

  /** Throughout a life no service has two of the three outcomes at once if and only if every call is clear
      in the state it is made in. */
  lemma {:induction false} LifeKeepsOutcomesApartIff(states: seq<State>, calls: seq<Call>)
    requires IsLife(states, calls) && Apart(states[0])
    ensures (forall k :: 0 <= k < |states| ==> Apart(states[k])) <==>
      (forall k :: 0 <= k < |calls| ==> Clear(calls[k], states[k]))
    decreases |calls|
  {
    hide Apart, Clear, StartedEverything, Apply;
    if calls == [] {
    } else {
      var n := |calls| - 1;
      LifeKeepsOutcomesApartIff(states[..n + 1], calls[..n]);
      if Apart(states[n]) {
        CallKeepsApartIff(calls[n], states[n], states[n + 1]);
      }
    }
  }

  lemma CallKeepsApartIff(call: Call, s: State, t: State)
    requires Apart(s) && Does(call, s, t)
    ensures Apart(t) <==> Clear(call, s)
  {
    hide Invariant, SafeToStart, StartedEverything, Apply, FailsDisabled, Fails, Disables;
    CallKeepsInvariantIff(call, s, t);
    match call
    case Plain(op) => FailedStaysApartFromDisabledIff(s, op);
    case StartAll =>
      var ws :| StartedEverything(s, t, ws);
      StartAllKeepsApartIff(s, t, ws);
  }

  // ---- stopping ------------------------------------------------------------------------------

  lemma {:induction false} ReversedWhenRegistered(names: seq<string>, registered: map<string, Service>)
    requires forall name :: name in names ==> name in registered
    ensures |ReversedRegistered(names, registered)| == |names|
    ensures forall k :: 0 <= k < |names| ==> ReversedRegistered(names, registered)[k] == names[|names| - 1 - k]
    decreases |names|
  {
    if names == [] {
    } else {
      ReversedWhenRegistered(names[..|names| - 1], registered);
    }
  }

  /** Stopping everything after a fresh startup stops each service before some provider of every capability
      it requires. */
  lemma ConsumersStopFirst(s: State, t: State, ws: seq<set<string>>, k: nat, cap: string) returns (l: nat)
    requires NothingRecorded(s) && StartedEverything(s, t, ws)
    requires var stopped := ReversedRegistered(t.started, t.registered);
             k < |stopped| && stopped[k] in s.registered && cap in s.registered[stopped[k]].needs
    ensures var stopped := ReversedRegistered(t.started, t.registered);
            k < l < |stopped| && stopped[l] in s.registered && cap in s.registered[stopped[l]].capabilities
  {
    hide StartedEverything, ReversedRegistered, NoDuplicates;
    forall name | name in t.started ensures name in t.registered {
      EveryoneHasOneOutcome(s, t, ws, name);
      SameRegistered(s, t, ws);
    }
    ReversedWhenRegistered(t.started, t.registered);
    var i := RequirementsStartFirst(s, t, ws, |t.started| - 1 - k, cap);
    l := |t.started| - 1 - i;
  }

  lemma SameRegistered(s: State, t: State, ws: seq<set<string>>)
    requires StartedEverything(s, t, ws)
    ensures t.registered == s.registered
  {
  }
}

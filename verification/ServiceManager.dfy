/** The service manager itself: its fields are updated in place, and each method is proved to do to them
    what the corresponding operation does to a state. */
module ServiceManager {
  import opened Wrappers
  import opened Services
  import opened Startup

  class Manager {
    var registered: map<string, Service>
    var capabilities: map<string, seq<string>>
    var started: seq<string>
    var failed: set<string>
    var disabled: map<string, Reason>

    function St(): State
      reads this
    {
      State(registered, capabilities, started, failed, disabled)
    }

    /** The capability index agrees with the registered instances. */
    ghost predicate Indexed()
      reads this
    {
      IndexAgrees(registered, capabilities)
    }

    constructor ()
      ensures St() == FRESH && Indexed()
    {
      registered, capabilities, started, failed, disabled := map[], map[], [], {}, map[];
      new;
      FreshHasInvariant();
    }

    // ---- the index ---------------------------------------------------------------------------

    method AddToIndex(caps: set<string>, name: string)
      modifies this`capabilities
      ensures capabilities == Services.Indexed(old(capabilities), caps, name)
    {
      var left := caps;
      while left != {}
        invariant left <= caps
        invariant capabilities == Services.Indexed(old(capabilities), caps - left, name)
        decreases left
      {
        var cap :| cap in left;
        capabilities := capabilities[cap := Lookup(capabilities, cap) + [name]];
        left := left - {cap};
      }
      assert caps - left == caps;
    }

    method DropFromIndex(caps: set<string>, name: string)
      modifies this`capabilities
      ensures capabilities == Unindexed(old(capabilities), caps, name)
    {
      var left := caps;
      while left != {}
        invariant left <= caps
        invariant capabilities == Unindexed(old(capabilities), caps - left, name)
        decreases left
      {
        var cap :| cap in left;
        if cap in capabilities {
          capabilities := capabilities[cap := RemoveFirst(capabilities[cap], name)];
        }
        left := left - {cap};
      }
      assert caps - left == caps;
    }

    method PruneFromIndex(caps: set<string>, name: string)
      modifies this`capabilities
      ensures capabilities == UnindexedPruned(old(capabilities), caps, name)
    {
      var left := caps;
      while left != {}
        invariant left <= caps
        invariant capabilities == UnindexedPruned(old(capabilities), caps - left, name)
        decreases left
      {
        var cap :| cap in left;
        if cap in capabilities {
          var names := RemoveFirst(capabilities[cap], name);
          capabilities := if names == [] then capabilities - {cap} else capabilities[cap := names];
        }
        left := left - {cap};
      }
      assert caps - left == caps;
    }

    // ---- registration and hot swap -----------------------------------------------------------

    method Register(svc: Service) returns (r: Result)
      requires Indexed()
      modifies this
      ensures Indexed() && St() == Apply(old(St()), Operation.Register(svc))
      ensures r == if svc.name in old(registered) then AlreadyRegistered else Ok
    {
      RegisterKeepsIndex(St(), svc);
      if svc.name in registered {
        return AlreadyRegistered;
      }
      registered := registered[svc.name := svc];
      AddToIndex(svc.capabilities, svc.name);
      return Ok;
    }

    method RegisterAndStart(svc: Service) returns (r: Result)
      requires Indexed()
      modifies this
      ensures Indexed() && St() == Apply(old(St()), Operation.RegisterAndStart(svc))
      ensures r == if svc.name in old(registered) then AlreadyRegistered else Ok
    {
      r := Register(svc);
      if r == AlreadyRegistered {
        return;
      }
      if svc.startSucceeds {
        started := started + [svc.name];
        disabled := disabled - {svc.name};
      } else {
        failed := failed + {svc.name};
      }
    }

    method StartService(name: string) returns (r: Result)
      requires Indexed()
      modifies this
      ensures Indexed() && St() == Apply(old(St()), Operation.StartService(name))
      ensures r == if name in old(started) then Ok
                   else if name !in registered then Result.LookupError
                   else if registered[name].startSucceeds then Ok else StartFailed
    {
      if name in started {
        return Ok;
      }
      if name !in registered {
        return Result.LookupError;
      }
      if registered[name].startSucceeds {
        started := started + [name];
        failed := failed - {name};
        disabled := disabled - {name};
        return Ok;
      }
      failed := failed + {name};
      return StartFailed;
    }

    method RestartService(name: string, replacement: Option<Service>) returns (r: Result)
      requires Indexed()
      modifies this
      ensures Indexed() && St() == Apply(old(St()), Operation.RestartService(name, replacement))
      ensures r == if name !in old(registered) then Result.LookupError else Ok
    {
      OperationKeepsIndex(St(), Operation.RestartService(name, replacement));
      if name !in registered {
        return Result.LookupError;
      }
      if replacement.Some? {
        DropFromIndex(registered[name].capabilities, name);
        registered := registered[name := replacement.value];
        AddToIndex(replacement.value.capabilities, name);
      }
      if registered[name].startSucceeds {
        if name !in started {
          started := started + [name];
        }
        failed := failed - {name};
        disabled := disabled - {name};
      } else {
        started := RemoveFirst(started, name);
        failed := failed + {name};
      }
      return Ok;
    }

    method StopAndUnregister(name: string) returns (r: Result)
      requires Indexed()
      modifies this
      ensures Indexed() && St() == Apply(old(St()), Operation.StopAndUnregister(name))
      ensures r == if name !in old(registered) then Result.LookupError else Ok
    {
      OperationKeepsIndex(St(), Operation.StopAndUnregister(name));
      if name !in registered {
        return Result.LookupError;
      }
      started := RemoveFirst(started, name);
      PruneFromIndex(registered[name].capabilities, name);
      registered := registered - {name};
      failed := failed - {name};
      disabled := disabled - {name};
      return Ok;
    }

    /** Stop what is started, last first; the result lists the services whose `stop()` was called. */
    method StopAll() returns (stopped: seq<string>)
      requires Indexed()
      modifies this
      ensures Indexed() && St() == Apply(old(St()), Operation.StopAll)
      ensures stopped == ReversedRegistered(old(started), old(registered))
    {
      stopped := [];
      var i := |started|;
      assert started[..i] == started;
      while i > 0
        invariant 0 <= i <= |started| && St() == old(St())
        invariant stopped + ReversedRegistered(started[..i], registered) == ReversedRegistered(started, registered)
      {
        i := i - 1;
        assert started[..i + 1][..i] == started[..i];
        if started[i] in registered {
          stopped := stopped + [started[i]];
        }
      }
      started := [];
    }

    // ---- discovery ---------------------------------------------------------------------------

    /** The first started service providing a capability. */
    method GetByCapability(cap: string) returns (found: Option<Service>)
      requires Indexed()
      ensures found.None? <==> FirstRunning(Lookup(capabilities, cap), Names(started)).None?
      ensures found.Some? ==>
                var name := FirstRunning(Lookup(capabilities, cap), Names(started)).value;
                name in registered && found.value == registered[name] && cap in found.value.capabilities
    {
      hide IndexAgrees, Names;
      ProvidersAreRegistered(registered, capabilities, cap);
      var names := Lookup(capabilities, cap);
      for i := 0 to |names|
        invariant FirstRunning(names, Names(started)) == FirstRunning(names[i..], Names(started))
      {
        NamesMeans(started, names[i]);
        if names[i] in started {
          return Some(registered[names[i]]);
        }
      }
      return None;
    }

    /** All started services providing a capability, in index order. */
    method GetAllByCapability(cap: string) returns (found: seq<Service>)
      requires Indexed()
      ensures var names := RunningAmong(Lookup(capabilities, cap), Names(started));
              && |found| == |names|
              && forall k :: 0 <= k < |names| ==> names[k] in registered && found[k] == registered[names[k]]
    {
      hide IndexAgrees, Names;
      ProvidersAreRegistered(registered, capabilities, cap);
      var names := Lookup(capabilities, cap);
      found := [];
      ghost var done: seq<string> := [];
      for i := 0 to |names|
        invariant RunningAmong(names, Names(started)) == done + RunningAmong(names[i..], Names(started))
        invariant |found| == |done|
        invariant forall k :: 0 <= k < |done| ==> done[k] in registered && found[k] == registered[done[k]]
      {
        NamesMeans(started, names[i]);
        if names[i] in started {
          assert names[i] in names;
          found := found + [registered[names[i]]];
          done := done + [names[i]];
        }
      }
    }

    // ---- starting everything -----------------------------------------------------------------

    /** Disable the members of a wave whose enablement dependencies are unmet; the others may start. */
    method DisableUnmet(wave: set<string>, ghost env: Env) returns (startable: set<string>)
      requires wave <= registered.Keys && env.registered == registered && env.index == capabilities
      modifies this`disabled
      ensures startable <= wave && startable == Startable(env, wave, Names(started))
      ensures disabled.Keys == old(disabled.Keys) + (wave - startable)
      ensures forall name :: name in disabled ==>
                if name in wave - startable
                then Unmet(env, registered[name].needsEnabled, Names(started)) == Some(disabled[name])
                else name in old(disabled) && disabled[name] == old(disabled)[name]
    {
      startable := {};
      var left := wave;
      var running := Names(started);
      ghost var current := Env(registered, capabilities, env.before);
      assert current == env;
      while left != {}
        invariant left <= wave
        invariant startable == Startable(env, wave - left, running)
        invariant disabled.Keys == old(disabled.Keys) + ((wave - left) - startable)
        invariant forall name :: name in disabled ==>
                    if name in (wave - left) - startable
                    then Unmet(env, registered[name].needsEnabled, running) == Some(disabled[name])
                    else name in old(disabled) && disabled[name] == old(disabled)[name]
        decreases left
      {
        var name :| name in left;
        left := left - {name};
        var reason := Unmet(Env(registered, capabilities, {}), registered[name].needsEnabled, running);
        UnmetIgnoresBefore(env, {}, registered[name].needsEnabled, running);
        if reason.Some? {
          disabled := disabled[name := reason.value];
        } else {
          startable := startable + {name};
        }
      }
      assert wave - left == wave;
    }

    /** Start a wave; the starts complete in any order. */
    method StartWave(startable: set<string>, ghost env: Env)
      requires startable <= registered.Keys && env.registered == registered
      modifies this`started, this`failed
      ensures old(started) <= started
      ensures NoDuplicates(started[|old(started)|..])
      ensures forall name :: name in started[|old(started)|..] <==> name in Succeeding(env, startable)
      ensures failed == old(failed) + Failing(env, startable)
    {
      var left := startable;
      while left != {}
        invariant left <= startable
        invariant old(started) <= started
        invariant NoDuplicates(started[|old(started)|..])
        invariant forall name :: name in started[|old(started)|..] <==> name in Succeeding(env, startable - left)
        invariant failed == old(failed) + Failing(env, startable - left)
        decreases left
      {
        var name :| name in left;
        left := left - {name};
        if registered[name].startSucceeds {
          ghost var newly := started[|old(started)|..];
          assert name !in newly;
          started := started + [name];
          assert started[|old(started)|..] == newly + [name];
        } else {
          failed := failed + {name};
        }
      }
      assert startable - left == startable;
    }

    /** Mark what is left when nothing is ready: failed when a required capability is missing, disabled when
        only enablement capabilities are. */
    method GiveUp(remaining: set<string>, published: set<string>)
      requires remaining <= registered.Keys
      modifies this`failed, this`disabled
      ensures failed == old(failed) + Starving(registered, remaining, published)
      ensures disabled.Keys == old(disabled.Keys) + (remaining - Starving(registered, remaining, published))
      ensures forall name :: name in disabled ==>
                if name in remaining - Starving(registered, remaining, published)
                then disabled[name] == Unavailable(Wanted(registered[name]) - published)
                else name in old(disabled) && disabled[name] == old(disabled)[name]
    {
      var left := remaining;
      while left != {}
        invariant left <= remaining
        invariant failed == old(failed) + Starving(registered, remaining - left, published)
        invariant disabled.Keys ==
                  old(disabled.Keys) + ((remaining - left) - Starving(registered, remaining - left, published))
        invariant forall name :: name in disabled ==>
                    if name in (remaining - left) - Starving(registered, remaining - left, published)
                    then disabled[name] == Unavailable(Wanted(registered[name]) - published)
                    else name in old(disabled) && disabled[name] == old(disabled)[name]
        decreases left
      {
        var name :| name in left;
        left := left - {name};
        var svc := registered[name];
        if svc.needs - published != {} {
          failed := failed + {name};
        } else {
          disabled := disabled[name := Unavailable(Wanted(svc) - published)];
        }
      }
      assert remaining - left == remaining;
    }

    /** Start every registered service in waves. The result records the waves. */
    method StartAll() returns (ghost ws: seq<set<string>>)
      requires Indexed()
      modifies this
      ensures registered == old(registered) && capabilities == old(capabilities) && Indexed()
      ensures StartedEverything(old(St()), St(), ws)
    {
      hide InWaves, Published, Attempted, Tried, CapsSatisfied, OptionalPending, Startable, IndexAgrees, AfterWaves;
      hide ReasonsAfter;
      ghost var env := EnvOf(St());
      ghost var init := St();
      var remaining := registered.Keys;
      var startedCaps: set<string> := {};
      ws := [];
      NothingStartedYet(env, init);
      while remaining != {}
        invariant registered == init.registered && capabilities == init.capabilities
        invariant AfterWaves(env, init, St(), ws) && ReasonsAfter(env, init, St(), ws)
        invariant remaining == Remaining(env, ws)
        invariant startedCaps == Published(env, ws)
        decreases remaining
      {
        var ready := set name | name in remaining && CapsSatisfied(registered[name], startedCaps);
        assert ready == Ready(env, ws);
        if ready == {} {
          ghost var settled := St();
          GiveUp(remaining, startedCaps);
          EndOfStartup(env, init, settled, St(), ws);
          return;
        }
        var preferred := set name | name in ready
          && !OptionalPending(registered[name], startedCaps, remaining, capabilities);
        assert preferred == Preferred(env, ws);
        if preferred != {} {
          ready := preferred;
        }
        remaining := remaining - ready;
        ghost var was := St();
        var startable := DisableUnmet(ready, env);
        StartWave(startable, env);
        startedCaps := startedCaps + set name, cap |
          name in startable && name in started && cap in registered[name].capabilities :: cap;
        WaveKeeps(env, init, was, St(), ws, ready, startable);
        WaveKeepsReasons(env, init, was, St(), ws, ready, startable);
        ws := ws + [ready];
      }
      EndOfStartup(env, init, St(), St(), ws);
    }
  }

  // ---- what startup leaves behind ------------------------------------------------------------

  function EnvOf(s: State): Env {
    Env(s.registered, s.capabilities, Names(s.started))
  }

  /** The capabilities named by the enablement dependencies. */
  function Wanted(svc: Service): set<string> {
    set i | 0 <= i < |svc.needsEnabled| :: svc.needsEnabled[i].capability
  }

  /** Those with a required capability that is not published. */
  function Starving(registered: map<string, Service>, remaining: set<string>, published: set<string>): set<string> {
    set name | name in remaining && name in registered && registered[name].needs - published != {}
  }

  /** `newly` lists the services started by the waves, each once and wave by wave. */
  ghost predicate Launched(env: Env, ws: seq<set<string>>, newly: seq<string>) {
    && NoDuplicates(newly)
    && (forall name :: name in newly <==> name in Succeeding(env, Tried(env, ws)))
    && (forall i, j, k {:trigger newly[i], newly[j], Attempted(ws[..k])} ::
          0 <= i < j < |newly| && 0 <= k <= |ws| && newly[j] in Attempted(ws[..k]) ==> newly[i] in Attempted(ws[..k]))
  }

  /** From state `s`, startup ran the waves `ws` to the end and left `t`. */
  ghost predicate StartedEverything(s: State, t: State, ws: seq<set<string>>) {
    var env := EnvOf(s);
    var starving := Starving(s.registered, Remaining(env, ws), Published(env, ws));
    && t.registered == s.registered && t.capabilities == s.capabilities
    && IsStartup(env, ws)
    && s.started <= t.started && Launched(env, ws, t.started[|s.started|..])
    && t.failed == s.failed + Failing(env, Tried(env, ws)) + starving
    && t.disabled.Keys == s.disabled.Keys + (Attempted(ws) - Tried(env, ws)) + (Remaining(env, ws) - starving)
    && forall name :: name in t.disabled ==> ReasonAtEnd(env, s, ws, starving, name, t.disabled[name])
  }

  /** `name` was reached in a wave in which its enablement dependencies were unmet for the given reason. */
  ghost predicate HeldFor(env: Env, ws: seq<set<string>>, k: int, name: string, reason: Reason) {
    && 0 <= k < |ws| && name in ws[k] && name in env.registered
    && Unmet(env, env.registered[name].needsEnabled, Running(env, ws[..k])) == Some(reason)
  }

  /** The reason recorded for a disabled service once startup has ended. */
  ghost predicate ReasonAtEnd(env: Env, s: State, ws: seq<set<string>>, starving: set<string>, name: string,
                              reason: Reason)
  {
    if name in Attempted(ws) - Tried(env, ws) then exists k :: HeldFor(env, ws, k, name, reason)
    else if name in Remaining(env, ws) - starving
    then name in s.registered && reason == Unavailable(Wanted(s.registered[name]) - Published(env, ws))
    else name in s.disabled && reason == s.disabled[name]
  }

  /** And after the waves `ws`. */
  ghost predicate ReasonsAfter(env: Env, init: State, now: State, ws: seq<set<string>>) {
    forall name :: name in now.disabled ==>
      if name in Attempted(ws) - Tried(env, ws) then exists k :: HeldFor(env, ws, k, name, now.disabled[name])
      else name in init.disabled && now.disabled[name] == init.disabled[name]
  }

  /** Where startup stands after the waves `ws`, having begun in state `init`. */
  ghost predicate AfterWaves(env: Env, init: State, now: State, ws: seq<set<string>>) {
    && InWaves(env, ws)
    && init.started <= now.started && Launched(env, ws, now.started[|init.started|..])
    && now.failed == init.failed + Failing(env, Tried(env, ws))
    && now.disabled.Keys == init.disabled.Keys + (Attempted(ws) - Tried(env, ws))
  }

  /** One more wave. */
  lemma WaveKeeps(env: Env, init: State, was: State, now: State, ws: seq<set<string>>,
                  wave: set<string>, startable: set<string>)
    requires env == EnvOf(init) && AfterWaves(env, init, was, ws) && Ready(env, ws) != {} && wave == NextWave(env, ws)
    requires startable == Startable(env, wave, Names(was.started)) && startable <= wave
    requires was.started <= now.started && NoDuplicates(now.started[|was.started|..])
    requires forall name :: name in now.started[|was.started|..] <==> name in Succeeding(env, startable)
    requires now.failed == was.failed + Failing(env, startable)
    requires now.disabled.Keys == was.disabled.Keys + (wave - startable)
    ensures AfterWaves(env, init, now, ws + [wave])
    ensures Remaining(env, ws + [wave]) == Remaining(env, ws) - wave
    ensures Published(env, ws + [wave]) == Published(env, ws) +
              set name, cap | name in startable && name in now.started && name in env.registered
                              && cap in env.registered[name].capabilities :: cap
  {
    hide InWaves, Published, Attempted, Tried, Running, Startable, NextWave, NoDuplicates, Succeeding, Failing;
    RunningMeans(env, init.started, ws, was.started);
    WaveExtends(env, ws, wave, startable);
    LaunchExtends(env, init.started, ws, wave, startable, was.started, now.started);
    RunningMeans(env, init.started, ws + [wave], now.started);
    FailingSplit(env, Tried(env, ws), startable);
    assert startable * Running(env, ws + [wave]) == set name | name in startable && name in now.started;
  }

  /** And the reasons. */
  lemma WaveKeepsReasons(env: Env, init: State, was: State, now: State, ws: seq<set<string>>,
                         wave: set<string>, startable: set<string>)
    requires env == EnvOf(init) && AfterWaves(env, init, was, ws) && ReasonsAfter(env, init, was, ws)
    requires Ready(env, ws) != {} && wave == NextWave(env, ws) && wave <= env.registered.Keys
    requires startable == Startable(env, wave, Names(was.started))
    requires forall name :: name in now.disabled ==>
               if name in wave - startable
               then Unmet(env, env.registered[name].needsEnabled, Names(was.started)) == Some(now.disabled[name])
               else name in was.disabled && now.disabled[name] == was.disabled[name]
    ensures ReasonsAfter(env, init, now, ws + [wave])
  {
    hide InWaves, Published, Attempted, Tried, Running, Startable, NextWave, Ready, Unmet, Launched, Names;
    var longer := ws + [wave];
    RunningMeans(env, init.started, ws, was.started);
    WaveExtends(env, ws, wave, startable);
    assert longer[..|ws|] == ws;
    forall name | name in now.disabled && name in Attempted(longer) - Tried(env, longer)
      ensures exists k :: HeldFor(env, longer, k, name, now.disabled[name])
    {
      if name in wave - startable {
        assert HeldFor(env, longer, |ws|, name, now.disabled[name]);
      } else {
        var k :| HeldFor(env, ws, k, name, was.disabled[name]);
        assert longer[..k] == ws[..k];
        assert HeldFor(env, longer, k, name, now.disabled[name]);
      }
    }
  }

  lemma EndOfStartup(env: Env, init: State, settled: State, now: State, ws: seq<set<string>>)
    requires env == EnvOf(init) && AfterWaves(env, init, settled, ws) && Ready(env, ws) == {}
    requires now.registered == init.registered && now.capabilities == init.capabilities
    requires now.started == settled.started
    requires var starving := Starving(init.registered, Remaining(env, ws), Published(env, ws));
             && now.failed == settled.failed + starving
             && now.disabled.Keys == settled.disabled.Keys + (Remaining(env, ws) - starving)
             && (forall name :: name in now.disabled ==>
                   if name in Remaining(env, ws) - starving
                   then now.disabled[name] == Unavailable(Wanted(init.registered[name]) - Published(env, ws))
                   else name in settled.disabled && now.disabled[name] == settled.disabled[name])
    requires ReasonsAfter(env, init, settled, ws)
    ensures StartedEverything(init, now, ws)
  {
    hide InWaves, Launched, Attempted, Tried, Failing, Starving, Wanted, Published, HeldFor;
  }

  lemma RunningMeans(env: Env, before: seq<string>, ws: seq<set<string>>, started: seq<string>)
    requires env.before == Names(before)
    requires before <= started && Launched(env, ws, started[|before|..])
    ensures Running(env, ws) == Names(started)
  {
    var newly := started[|before|..];
    assert started == before + newly;
  }

  lemma WaveExtends(env: Env, ws: seq<set<string>>, wave: set<string>, startable: set<string>)
    requires InWaves(env, ws) && Ready(env, ws) != {} && wave == NextWave(env, ws)
    requires startable == Startable(env, wave, Running(env, ws))
    ensures InWaves(env, ws + [wave])
    ensures Attempted(ws + [wave]) == Attempted(ws) + wave
    ensures Tried(env, ws + [wave]) == Tried(env, ws) + startable && startable <= wave
    ensures wave !! Attempted(ws) && Tried(env, ws) <= Attempted(ws)
    ensures Published(env, ws + [wave]) == Published(env, ws) + CapsOf(env, startable * Running(env, ws + [wave]))
  {
    hide NextWave, CapsOf, CapsSatisfied;
    var longer := ws + [wave];
    assert longer[..|longer| - 1] == ws;
    TriedGrows(env, ws, 0);
    WaveAwaits(env, ws);
    SplitCaps(env, Tried(env, ws) * Running(env, ws), startable * Running(env, longer));
    assert Tried(env, longer) * Running(env, longer) ==
           Tried(env, ws) * Running(env, ws) + startable * Running(env, longer);
  }

  lemma WaveAwaits(env: Env, ws: seq<set<string>>)
    ensures NextWave(env, ws) <= Remaining(env, ws)
  {
  }

  lemma SplitCaps(env: Env, a: set<string>, b: set<string>)
    ensures CapsOf(env, a + b) == CapsOf(env, a) + CapsOf(env, b)
  {
  }

  lemma NothingStartedYet(env: Env, init: State)
    ensures AfterWaves(env, init, init, []) && ReasonsAfter(env, init, init, [])
    ensures Remaining(env, []) == env.registered.Keys && Published(env, []) == {}
  {
    assert init.started[|init.started|..] == [];
  }

  lemma FailingSplit(env: Env, a: set<string>, b: set<string>)
    ensures Failing(env, a + b) == Failing(env, a) + Failing(env, b)
    ensures Succeeding(env, a + b) == Succeeding(env, a) + Succeeding(env, b)
  {
  }

  lemma JoinNoDuplicates(a: seq<string>, b: seq<string>)
    requires NoDuplicates(a) && NoDuplicates(b) && forall x :: x in a ==> x !in b
    ensures NoDuplicates(a + b)
  {
    var c := a + b;
    forall i, j | 0 <= i < j < |c| ensures c[i] != c[j] {
      assert i < |a| ==> c[i] in a;
      assert j >= |a| ==> c[j] in b;
    }
  }

  lemma LaunchExtends(env: Env, before: seq<string>, ws: seq<set<string>>, wave: set<string>, startable: set<string>,
                      earlier: seq<string>, started: seq<string>)
    requires before <= earlier <= started && Launched(env, ws, earlier[|before|..])
    requires Attempted(ws + [wave]) == Attempted(ws) + wave && wave !! Attempted(ws)
    requires Tried(env, ws + [wave]) == Tried(env, ws) + startable
    requires startable <= wave && Tried(env, ws) <= Attempted(ws)
    requires NoDuplicates(started[|earlier|..])
    requires forall name :: name in started[|earlier|..] <==> name in Succeeding(env, startable)
    ensures Launched(env, ws + [wave], started[|before|..])
  {
    hide Attempted, Tried, NoDuplicates;
    var past, fresh', newly, longer := earlier[|before|..], started[|earlier|..], started[|before|..], ws + [wave];
    assert newly == past + fresh';
    FailingSplit(env, Tried(env, ws), startable);
    JoinNoDuplicates(past, fresh');
    forall i, j, k | 0 <= i < j < |newly| && 0 <= k <= |longer| && newly[j] in Attempted(longer[..k])
      ensures newly[i] in Attempted(longer[..k])
    {
      WaveOrder(env, ws, wave, startable, past, fresh', i, j, k);
    }
  }

  lemma WaveOrder(env: Env, ws: seq<set<string>>, wave: set<string>, startable: set<string>,
                  past: seq<string>, fresh': seq<string>, i: int, j: int, k: int)
    requires Launched(env, ws, past) && 0 <= i < j < |past + fresh'| && 0 <= k <= |ws + [wave]|
    requires Attempted(ws + [wave]) == Attempted(ws) + wave && wave !! Attempted(ws)
    requires startable <= wave && Tried(env, ws) <= Attempted(ws)
    requires forall name :: name in fresh' <==> name in Succeeding(env, startable)
    requires (past + fresh')[j] in Attempted((ws + [wave])[..k])
    ensures (past + fresh')[i] in Attempted((ws + [wave])[..k])
  {
    hide Attempted, Tried, NoDuplicates;
    var newly, longer := past + fresh', ws + [wave];
    if k == |longer| {
      assert longer[..k] == longer;
      assert newly[i] in past || newly[i] in fresh';
    } else {
      assert longer[..k] == ws[..k];
      TriedGrows(env, ws, k);
      assert newly[j] !in fresh';
      if j >= |past| { assert false; }
      assert newly[j] == past[j] && newly[i] == past[i];
    }
  }

  // ---- helpers -------------------------------------------------------------------------------

  function ReversedRegistered(names: seq<string>, registered: map<string, Service>): seq<string> {
    if names == [] then []
    else
      var last := names[|names| - 1];
      (if last in registered then [last] else []) + ReversedRegistered(names[..|names| - 1], registered)
  }

  lemma {:induction false} UnmetIgnoresBefore(env: Env, before: set<string>, deps: seq<EnablementDep>,
                                              running: set<string>)
    ensures Unmet(Env(env.registered, env.index, before), deps, running) == Unmet(env, deps, running)
    decreases |deps|
  {
    if deps == [] {
    } else {
      UnmetIgnoresBefore(env, before, deps[1..], running);
    }
  }

  lemma NamesMeans(started: seq<string>, name: string)
    ensures name in Names(started) <==> name in started
  {
  }

  lemma ProvidersAreRegistered(registered: map<string, Service>, index: map<string, seq<string>>, cap: string)
    requires IndexAgrees(registered, index)
    ensures forall name :: name in Lookup(index, cap) ==> name in registered && cap in registered[name].capabilities
  {
    assert IndexedAt(registered, index, cap);
  }
}

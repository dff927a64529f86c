/** Services, the manager's state, and what each of its operations does to that state. */
module Services {
  import opened Wrappers

  /** A backend, or a service when `backend` is empty, that must be enabled first. */
  datatype EnablementDep = EnablementDep(capability: string, backend: string)

  /** What a service declares, and how it answers: whether its `start()` succeeds, whether it is enabled,
      and which backends it reports enabled if it reports any. */
  datatype Service = Service(
    name: string,
    capabilities: set<string>,
    needs: set<string>,
    optional: set<string>,
    needsEnabled: seq<EnablementDep>,
    startSucceeds: bool,
    enabled: bool,
    enabledBackends: Option<set<string>>)

  datatype Reason =
    | Unavailable(missing: set<string>)
    | OwnerMissing(capability: string)
    | BackendOff(backend: string)
    | ServiceOff(capability: string)

  datatype State = State(
    registered: map<string, Service>,
    capabilities: map<string, seq<string>>,
    started: seq<string>,
    failed: set<string>,
    disabled: map<string, Reason>)

  datatype Result = Ok | LookupError | AlreadyRegistered | StartFailed

  const FRESH: State := State(map[], map[], [], {}, map[])

  // ---- lists ---------------------------------------------------------------------------------

  ghost predicate NoDuplicates<T>(xs: seq<T>) {
    forall i, j :: 0 <= i < j < |xs| ==> xs[i] != xs[j]
  }

  /** `list.remove(x)`, when `x` is there. */
  function RemoveFirst(xs: seq<string>, x: string): seq<string> {
    if xs == [] then []
    else if xs[0] == x then xs[1..]
    else [xs[0]] + RemoveFirst(xs[1..], x)
  }

  lemma {:induction false} RemoveFirstRemoves(xs: seq<string>, x: string)
    requires NoDuplicates(xs)
    ensures NoDuplicates(RemoveFirst(xs, x))
    ensures forall y :: y in RemoveFirst(xs, x) <==> y in xs && y != x
    decreases |xs|
  {
    if xs == [] {
    } else {
      var rest := xs[1..];
      assert xs == [xs[0]] + rest;
      RemoveFirstRemoves(rest, x);
      assert xs[0] !in rest;
    }
  }

  // ---- the capability index ------------------------------------------------------------------

  function Lookup(index: map<string, seq<string>>, cap: string): seq<string> {
    if cap in index then index[cap] else []
  }

  /** Append `name` to the entry of every capability in `caps`. */
  function Indexed(index: map<string, seq<string>>, caps: set<string>, name: string): map<string, seq<string>> {
    map c | c in index.Keys + caps :: if c in caps then Lookup(index, c) + [name] else index[c]
  }

  /** Remove `name` from the entry of every capability in `caps`, keeping emptied entries. */
  function Unindexed(index: map<string, seq<string>>, caps: set<string>, name: string): map<string, seq<string>> {
    map c | c in index :: if c in caps then RemoveFirst(index[c], name) else index[c]
  }

  /** Likewise, but dropping emptied entries. */
  function UnindexedPruned(index: map<string, seq<string>>, caps: set<string>, name: string): map<string, seq<string>> {
    map c | c in index && !(c in caps && RemoveFirst(index[c], name) == []) ::
      if c in caps then RemoveFirst(index[c], name) else index[c]
  }

  /** The index agrees with the registered instances at capability `cap`: exactly the names whose current
      instance declares it, each once. */
  ghost predicate IndexedAt(registered: map<string, Service>, index: map<string, seq<string>>, cap: string) {
    && NoDuplicates(Lookup(index, cap))
    && forall name :: name in Lookup(index, cap) <==> name in registered && cap in registered[name].capabilities
  }

  ghost predicate IndexAgrees(registered: map<string, Service>, index: map<string, seq<string>>) {
    forall cap {:trigger IndexedAt(registered, index, cap)} :: IndexedAt(registered, index, cap)
  }

  // ---- the invariant -------------------------------------------------------------------------

  /** Nothing is started twice, every name recorded is registered, and what is started is neither failed
      nor disabled. */
  ghost predicate OutcomesDisjoint(s: State) {
    && NoDuplicates(s.started)
    && (forall name :: name in s.started ==> name in s.registered && name !in s.failed && name !in s.disabled)
    && s.failed <= s.registered.Keys && s.disabled.Keys <= s.registered.Keys
  }

  ghost predicate Invariant(s: State) {
    IndexAgrees(s.registered, s.capabilities) && OutcomesDisjoint(s)
  }

  // ---- the operations ------------------------------------------------------------------------

  function Registered(s: State, svc: Service): State {
    if svc.name in s.registered then s
    else s.(registered := s.registered[svc.name := svc],
            capabilities := Indexed(s.capabilities, svc.capabilities, svc.name))
  }

  function RegisteredAndStarted(s: State, svc: Service): State {
    if svc.name in s.registered then s
    else
      var r := Registered(s, svc);
      if svc.startSucceeds
      then r.(started := r.started + [svc.name], disabled := r.disabled - {svc.name})
      else r.(failed := r.failed + {svc.name})
  }

  function ServiceStarted(s: State, name: string): State {
    if name in s.started || name !in s.registered then s
    else if s.registered[name].startSucceeds
    then s.(started := s.started + [name], failed := s.failed - {name}, disabled := s.disabled - {name})
    else s.(failed := s.failed + {name})
  }

  /** Swap in the new instance, if one is given. */
  function Swapped(s: State, name: string, replacement: Option<Service>): State
    requires name in s.registered
  {
    if replacement.None? then s
    else
      var without := Unindexed(s.capabilities, s.registered[name].capabilities, name);
      s.(registered := s.registered[name := replacement.value],
         capabilities := Indexed(without, replacement.value.capabilities, name))
  }

  function Restarted(s: State, name: string, replacement: Option<Service>): State {
    if name !in s.registered then s
    else
      var r := Swapped(s, name, replacement);
      if r.registered[name].startSucceeds
      then r.(started := if name in r.started then r.started else r.started + [name],
              failed := r.failed - {name}, disabled := r.disabled - {name})
      else r.(started := RemoveFirst(r.started, name), failed := r.failed + {name})
  }

  function Unregistered(s: State, name: string): State {
    if name !in s.registered then s
    else State(
      s.registered - {name},
      UnindexedPruned(s.capabilities, s.registered[name].capabilities, name),
      RemoveFirst(s.started, name),
      s.failed - {name},
      s.disabled - {name})
  }

  function Stopped(s: State): State { s.(started := []) }

  // ---- every operation keeps the invariant ---------------------------------------------------

  lemma RegisterKeepsIndex(s: State, svc: Service)
    requires IndexAgrees(s.registered, s.capabilities)
    ensures IndexAgrees(Registered(s, svc).registered, Registered(s, svc).capabilities)
  {
    var r := Registered(s, svc);
    forall cap ensures IndexedAt(r.registered, r.capabilities, cap) {
      assert IndexedAt(s.registered, s.capabilities, cap);
    }
  }

  lemma SwapKeepsIndex(s: State, name: string, replacement: Option<Service>)
    requires IndexAgrees(s.registered, s.capabilities) && name in s.registered
    ensures IndexAgrees(Swapped(s, name, replacement).registered, Swapped(s, name, replacement).capabilities)
  {
    var r := Swapped(s, name, replacement);
    forall cap ensures IndexedAt(r.registered, r.capabilities, cap) {
      assert IndexedAt(s.registered, s.capabilities, cap);
      RemoveFirstRemoves(Lookup(s.capabilities, cap), name);
    }
  }

  lemma UnregisterKeepsIndex(s: State, name: string)
    requires IndexAgrees(s.registered, s.capabilities)
    ensures IndexAgrees(Unregistered(s, name).registered, Unregistered(s, name).capabilities)
  {
    var r := Unregistered(s, name);
    forall cap ensures IndexedAt(r.registered, r.capabilities, cap) {
      assert IndexedAt(s.registered, s.capabilities, cap);
      RemoveFirstRemoves(Lookup(s.capabilities, cap), name);
    }
  }

  /** One call of the manager, other than starting everything. */
  datatype Operation =
    | Register(svc: Service)
    | RegisterAndStart(svc: Service)
    | StartService(name: string)
    | RestartService(name: string, replacement: Option<Service>)
    | StopAndUnregister(name: string)
    | StopAll

  function Apply(s: State, op: Operation): State {
    match op
    case Register(svc) => Registered(s, svc)
    case RegisterAndStart(svc) => RegisteredAndStarted(s, svc)
    case StartService(name) => ServiceStarted(s, name)
    case RestartService(name, replacement) => Restarted(s, name, replacement)
    case StopAndUnregister(name) => Unregistered(s, name)
    case StopAll => Stopped(s)
  }

  lemma OperationKeepsIndex(s: State, op: Operation)
    requires IndexAgrees(s.registered, s.capabilities)
    ensures IndexAgrees(Apply(s, op).registered, Apply(s, op).capabilities)
  {
    hide IndexAgrees, Indexed, Unindexed, UnindexedPruned;
    match op
    case Register(svc) => RegisterKeepsIndex(s, svc);
    case RegisterAndStart(svc) => RegisterKeepsIndex(s, svc);
    case StartService(name) =>
    case RestartService(name, replacement) => if name in s.registered { SwapKeepsIndex(s, name, replacement); }
    case StopAndUnregister(name) => UnregisterKeepsIndex(s, name);
    case StopAll =>
  }

  lemma RestartKeepsOutcomes(s: State, name: string, replacement: Option<Service>)
    requires OutcomesDisjoint(s)
    ensures OutcomesDisjoint(Restarted(s, name, replacement))
  {
    hide Swapped, RemoveFirst, NoDuplicates;
    RemoveFirstRemoves(s.started, name);
    AppendKeepsNoDuplicates(s.started, name);
    if name in s.registered {
      SwapKeepsLists(s, name, replacement);
    }
  }

  lemma AppendKeepsNoDuplicates(xs: seq<string>, x: string)
    requires NoDuplicates(xs)
    ensures x !in xs ==> NoDuplicates(xs + [x])
  {
  }

  lemma SwapKeepsLists(s: State, name: string, replacement: Option<Service>)
    requires name in s.registered
    ensures var r := Swapped(s, name, replacement);
            && r.registered.Keys == s.registered.Keys
            && r.started == s.started && r.failed == s.failed && r.disabled == s.disabled
  {
    hide Indexed, Unindexed;
  }

  lemma UnregisterKeepsOutcomes(s: State, name: string)
    requires OutcomesDisjoint(s)
    ensures OutcomesDisjoint(Unregistered(s, name))
  {
    hide UnindexedPruned;
    RemoveFirstRemoves(s.started, name);
  }

  lemma OperationKeepsOutcomes(s: State, op: Operation)
    requires OutcomesDisjoint(s)
    ensures OutcomesDisjoint(Apply(s, op))
  {
    hide Indexed, Restarted, Unregistered;
    match op
    case Register(svc) =>
    case RegisterAndStart(svc) =>
    case StartService(name) =>
    case RestartService(name, replacement) => RestartKeepsOutcomes(s, name, replacement);
    case StopAndUnregister(name) => UnregisterKeepsOutcomes(s, name);
    case StopAll =>
  }

  lemma OperationKeepsInvariant(s: State, op: Operation)
    requires Invariant(s)
    ensures Invariant(Apply(s, op))
  {
    hide IndexAgrees, OutcomesDisjoint, Apply;
    OperationKeepsIndex(s, op);
    OperationKeepsOutcomes(s, op);
  }

  function ApplyAll(s: State, ops: seq<Operation>): State
    decreases |ops|
  {
    if ops == [] then s
    else ApplyAll(Apply(s, ops[0]), ops[1..])
  }

  /** Every state reached by any sequence of operations has an exact index and disjoint, duplicate-free
      outcome lists. */
  lemma {:induction false} EveryRunKeepsInvariant(s: State, ops: seq<Operation>)
    requires Invariant(s)
    ensures Invariant(ApplyAll(s, ops))
    decreases |ops|
  {
    if ops == [] {
    } else {
      OperationKeepsInvariant(s, ops[0]);
      EveryRunKeepsInvariant(Apply(s, ops[0]), ops[1..]);
    }
  }

  lemma FreshHasInvariant()
    ensures Invariant(FRESH)
  {
    forall cap ensures IndexedAt(FRESH.registered, FRESH.capabilities, cap) {
    }
  }

  /** Unregistering undoes registering, but for emptied index entries that were there before. */
  lemma UnregisterUndoesRegister(s: State, svc: Service)
    requires Invariant(s) && svc.name !in s.registered
    ensures var r := Unregistered(Registered(s, svc), svc.name);
            && r.registered == s.registered && r.started == s.started
            && r.failed == s.failed && r.disabled == s.disabled
            && forall cap :: Lookup(r.capabilities, cap) == Lookup(s.capabilities, cap)
  {
    var middle := Registered(s, svc);
    var r := Unregistered(middle, svc.name);
    assert r.registered == s.registered;
    AbsentNotRemoved(s.started, svc.name);
    forall cap ensures Lookup(r.capabilities, cap) == Lookup(s.capabilities, cap) {
      assert IndexedAt(s.registered, s.capabilities, cap);
      AppendedIsRemoved(Lookup(s.capabilities, cap), svc.name);
    }
  }

  lemma {:induction false} AbsentNotRemoved(xs: seq<string>, x: string)
    requires x !in xs
    ensures RemoveFirst(xs, x) == xs
    decreases |xs|
  {
    if xs == [] {
    } else {
      assert xs == [xs[0]] + xs[1..];
      AbsentNotRemoved(xs[1..], x);
    }
  }

  lemma {:induction false} AppendedIsRemoved(xs: seq<string>, x: string)
    requires x !in xs
    ensures RemoveFirst(xs + [x], x) == xs
    decreases |xs|
  {
    if xs == [] {
    } else {
      assert (xs + [x])[1..] == xs[1..] + [x];
      AppendedIsRemoved(xs[1..], x);
      assert xs == [xs[0]] + xs[1..];
    }
  }

  // ---- what each operation does --------------------------------------------------------------

  /** All but `x`, in order. */
  ghost function Others(xs: seq<string>, x: string): seq<string> {
    if xs == [] then [] else (if xs[0] == x then [] else [xs[0]]) + Others(xs[1..], x)
  }

  /** The name and the instance whose `start()` the call runs, if it runs one. */
  function Starting(s: State, op: Operation): Option<(string, Service)> {
    match op
    case RegisterAndStart(svc) => if svc.name in s.registered then None else Some((svc.name, svc))
    case StartService(name) =>
      if name in s.started || name !in s.registered then None else Some((name, s.registered[name]))
    case RestartService(name, replacement) =>
      if name !in s.registered then None
      else Some((name, if replacement.Some? then replacement.value else s.registered[name]))
    case _ => None
  }

  /** A service has been started: it is running, last unless it was running before, and nothing else is
      recorded about it. */
  ghost predicate StartSucceeds(s: State, t: State, name: string) {
    && t.started == (if name in s.started then s.started else s.started + [name])
    && name in t.started && name !in t.failed && name !in t.disabled
  }

  /** A start has failed: the service is recorded as failed and does not run, and it stays disabled if it was. */
  ghost predicate StartFails(s: State, t: State, name: string) {
    && t.started == Others(s.started, name)
    && name in t.failed && name !in t.started && (name in t.disabled <==> name in s.disabled)
  }

  /** What is recorded about every other service stays as it was. */
  ghost predicate OthersKept(s: State, t: State, name: string) {
    forall other :: other != name ==>
      && (other in t.failed <==> other in s.failed)
      && (other in t.disabled <==> other in s.disabled)
      && (other in t.disabled && other in s.disabled ==> t.disabled[other] == s.disabled[other])
  }

  /** Each call does to the three lists what starting or not starting means. */
  lemma OperationDoesToLists(s: State, op: Operation)
    requires Invariant(s)
    ensures Starting(s, op).Some? ==>
              var (name, svc) := Starting(s, op).value;
              && (if svc.startSucceeds then StartSucceeds(s, Apply(s, op), name) else StartFails(s, Apply(s, op), name))
              && OthersKept(s, Apply(s, op), name)
    ensures op.StopAndUnregister? ==>
              && Apply(s, op).started == Others(s.started, op.name) && OthersKept(s, Apply(s, op), op.name)
              && op.name !in Apply(s, op).failed && op.name !in Apply(s, op).disabled
    ensures op.StopAll? ==> Apply(s, op).started == []
    ensures Starting(s, op).None? && !op.StopAndUnregister? && !op.StopAll? ==> Apply(s, op).started == s.started
    ensures Starting(s, op).None? && !op.StopAndUnregister? ==>
              Apply(s, op).failed == s.failed && Apply(s, op).disabled == s.disabled
  {
    hide IndexAgrees, Indexed, Unindexed, UnindexedPruned, NoDuplicates, Others, RemoveFirst, Swapped;
    match op
    case StopAndUnregister(name) =>
      OthersIsRemoval(s.started, name);
    case RestartService(name, replacement) =>
      OthersIsRemoval(s.started, name);
      if name in s.registered { SwapKeepsLists(s, name, replacement); }
      if name in s.registered { SwapInstalls(s, name, replacement); }
    case StartService(name) =>
      OthersIsRemoval(s.started, name);
    case RegisterAndStart(svc) =>
      OthersIsRemoval(s.started, svc.name);
    case _ =>
  }

  lemma SwapInstalls(s: State, name: string, replacement: Option<Service>)
    requires name in s.registered
    ensures name in Swapped(s, name, replacement).registered
    ensures Swapped(s, name, replacement).registered[name] ==
            if replacement.Some? then replacement.value else s.registered[name]
  {
    hide Indexed, Unindexed;
  }

  lemma {:induction false} OthersIsRemoval(xs: seq<string>, x: string)
    requires NoDuplicates(xs)
    ensures Others(xs, x) == RemoveFirst(xs, x) && x !in Others(xs, x)
    ensures x !in xs ==> Others(xs, x) == xs
    decreases |xs|
  {
    if xs == [] {
    } else {
      assert xs == [xs[0]] + xs[1..] && xs[0] !in xs[1..];
      OthersIsRemoval(xs[1..], x);
    }
  }

  /** The instance registered under a name, and its place in the index, after each call: registering appends,
      replacing moves to the end, unregistering takes out, and everyone else keeps their place. */
  ghost predicate Registration(s: State, t: State, name: string, svc: Option<Service>) {
    && (forall other :: other != name ==>
          && (other in t.registered <==> other in s.registered)
          && (other in s.registered && other in t.registered ==> t.registered[other] == s.registered[other]))
    && (name in t.registered <==> svc.Some?) && (svc.Some? && name in t.registered ==> t.registered[name] == svc.value)
    && (forall cap :: Lookup(t.capabilities, cap) ==
          Others(Lookup(s.capabilities, cap), name)
          + if svc.Some? && cap in svc.value.capabilities then [name] else [])
  }

  lemma OperationDoesToIndex(s: State, op: Operation)
    requires Invariant(s)
    ensures match op
            case Register(svc) =>
              if svc.name in s.registered then Apply(s, op) == s else Registration(s, Apply(s, op), svc.name, Some(svc))
            case RegisterAndStart(svc) =>
              if svc.name in s.registered then Apply(s, op) == s else Registration(s, Apply(s, op), svc.name, Some(svc))
            case StopAndUnregister(name) =>
              if name in s.registered then Registration(s, Apply(s, op), name, None) else Apply(s, op) == s
            case RestartService(name, replacement) =>
              if name in s.registered && replacement.Some?
              then Registration(s, Apply(s, op), name, replacement)
              else Apply(s, op).registered == s.registered && Apply(s, op).capabilities == s.capabilities
            case _ => Apply(s, op).registered == s.registered && Apply(s, op).capabilities == s.capabilities
  {
    hide OutcomesDisjoint, IndexAgrees, Indexed, Unindexed, UnindexedPruned, Registration, Swapped, RemoveFirst;
    match op
    case Register(svc) => if svc.name !in s.registered { RegisterPlaces(s, svc); }
    case RegisterAndStart(svc) => if svc.name !in s.registered { RegisterAndStartPlaces(s, svc); }
    case StopAndUnregister(name) => if name in s.registered { UnregisterPlaces(s, name); }
    case RestartService(name, replacement) =>
      if name in s.registered { RestartPlaces(s, name, replacement); }
    case _ =>
  }

  /** Unregistering drops the index entries it empties; no other call drops any. */
  lemma OperationKeepsEntries(s: State, op: Operation, cap: string)
    requires Invariant(s)
    ensures cap in s.capabilities && cap !in Apply(s, op).capabilities ==>
      && op.StopAndUnregister? && op.name in s.registered && cap in s.registered[op.name].capabilities
      && Others(s.capabilities[cap], op.name) == []
    ensures (op.StopAndUnregister? && op.name in s.registered && cap in s.registered[op.name].capabilities
             && Others(Lookup(s.capabilities, cap), op.name) == []) ==> cap !in Apply(s, op).capabilities
  {
    hide IndexAgrees, RemoveFirst, Others, NoDuplicates;
    if op.StopAndUnregister? {
      EntryWithout(s, cap, op.name);
    }
  }

  /** Taking a name out of an index entry, in either way of doing it. */
  lemma EntryWithout(s: State, cap: string, name: string)
    requires IndexAgrees(s.registered, s.capabilities)
    ensures Others(Lookup(s.capabilities, cap), name) == RemoveFirst(Lookup(s.capabilities, cap), name)
    ensures !(name in s.registered && cap in s.registered[name].capabilities) ==>
              Others(Lookup(s.capabilities, cap), name) == Lookup(s.capabilities, cap)
  {
    hide Others, RemoveFirst, NoDuplicates;
    assert IndexedAt(s.registered, s.capabilities, cap);
    OthersIsRemoval(Lookup(s.capabilities, cap), name);
  }

  lemma RegisterPlaces(s: State, svc: Service)
    requires IndexAgrees(s.registered, s.capabilities) && svc.name !in s.registered
    ensures Registration(s, Registered(s, svc), svc.name, Some(svc))
  {
    hide IndexAgrees, Others, RemoveFirst;
    forall cap ensures Others(Lookup(s.capabilities, cap), svc.name) == Lookup(s.capabilities, cap) {
      EntryWithout(s, cap, svc.name);
    }
  }

  lemma RegisterAndStartPlaces(s: State, svc: Service)
    requires IndexAgrees(s.registered, s.capabilities) && svc.name !in s.registered
    ensures Registration(s, RegisteredAndStarted(s, svc), svc.name, Some(svc))
  {
    hide IndexAgrees, Others, Indexed;
    RegisterPlaces(s, svc);
  }

  lemma UnregisterPlaces(s: State, name: string)
    requires IndexAgrees(s.registered, s.capabilities) && name in s.registered
    ensures Registration(s, Unregistered(s, name), name, None)
  {
    hide IndexAgrees, Others, RemoveFirst;
    forall cap ensures Lookup(Unregistered(s, name).capabilities, cap) == Others(Lookup(s.capabilities, cap), name) {
      EntryWithout(s, cap, name);
      assert RemoveFirst([], name) == [] by { OthersIsRemoval([], name); }
    }
  }

  lemma SwapPlaces(s: State, name: string, svc: Service)
    requires IndexAgrees(s.registered, s.capabilities) && name in s.registered
    ensures Registration(s, Swapped(s, name, Some(svc)), name, Some(svc))
  {
    hide IndexAgrees, Others, RemoveFirst;
    var t := Swapped(s, name, Some(svc));
    forall cap
      ensures Lookup(t.capabilities, cap) ==
              Others(Lookup(s.capabilities, cap), name) + if cap in svc.capabilities then [name] else []
    {
      EntryWithout(s, cap, name);
      assert RemoveFirst([], name) == [] by { OthersIsRemoval([], name); }
    }
  }

  lemma RestartPlaces(s: State, name: string, replacement: Option<Service>)
    requires IndexAgrees(s.registered, s.capabilities) && name in s.registered
    ensures var t := Restarted(s, name, replacement);
            if replacement.Some? then Registration(s, t, name, replacement)
            else t.registered == s.registered && t.capabilities == s.capabilities
  {
    hide IndexAgrees, Others, RemoveFirst, Indexed, Unindexed;
    if replacement.Some? {
      SwapPlaces(s, name, replacement.value);
    }
  }

  // ---- failed and disabled at once -----------------------------------------------------------

  /** The call starts a service recorded as disabled, and the start fails. */
  predicate FailsDisabled(s: State, op: Operation) {
    match op
    case StartService(name) => name in s.disabled && name in s.registered && !s.registered[name].startSucceeds
    case RestartService(name, replacement) =>
      && name in s.disabled && name in s.registered
      && !(if replacement.Some? then replacement.value else s.registered[name]).startSucceeds
    case _ => false
  }

  /** Failed and disabled stay disjoint through every operation but a failing start of a disabled service:
      a failure is recorded without taking the name out of the disabled ones. */
  lemma FailedStaysApartFromDisabledIff(s: State, op: Operation)
    requires Invariant(s) && s.failed !! s.disabled.Keys
    ensures Apply(s, op).failed !! Apply(s, op).disabled.Keys <==> !FailsDisabled(s, op)
  {
    hide IndexAgrees, Indexed, Unindexed, UnindexedPruned, RemoveFirst, NoDuplicates;
    if FailsDisabled(s, op) {
      assert op.name in Apply(s, op).failed && op.name in Apply(s, op).disabled.Keys;
    }
  }

  /** A disabled service whose start fails, started: it is then in both records. */
  lemma FailedAndDisabled() returns (s: State)
    ensures Invariant(s) && s.failed == {} && s.disabled.Keys == {"a"} && FailsDisabled(s, StartService("a"))
    ensures "a" in Apply(s, StartService("a")).failed && "a" in Apply(s, StartService("a")).disabled
  {
    var svc := Service("a", {}, {}, {}, [], false, true, None);
    s := State(map["a" := svc], map[], [], {}, map["a" := ServiceOff("b")]);
    forall cap ensures IndexedAt(s.registered, s.capabilities, cap) {
    }
  }

  // ---- discovery -----------------------------------------------------------------------------

  function Names(started: seq<string>): set<string> { set name | name in started }

  /** The names in `names` that are running, in order. */
  function RunningAmong(names: seq<string>, running: set<string>): seq<string> {
    if names == [] then []
    else (if names[0] in running then [names[0]] else []) + RunningAmong(names[1..], running)
  }

  /** The first provider in index order that is running. */
  function FirstRunning(names: seq<string>, running: set<string>): Option<string> {
    if names == [] then None
    else if names[0] in running then Some(names[0])
    else FirstRunning(names[1..], running)
  }

  lemma {:induction false} RunningAmongMeans(names: seq<string>, running: set<string>)
    requires NoDuplicates(names)
    ensures forall name :: name in RunningAmong(names, running) <==> name in names && name in running
    ensures NoDuplicates(RunningAmong(names, running))
    decreases |names|
  {
    if names == [] {
    } else {
      assert names == [names[0]] + names[1..];
      assert names[0] !in names[1..];
      RunningAmongMeans(names[1..], running);
    }
  }

  lemma {:induction false} FirstRunningIsHead(names: seq<string>, running: set<string>)
    ensures var all := RunningAmong(names, running);
            FirstRunning(names, running) == if all == [] then None else Some(all[0])
    decreases |names|
  {
    if names == [] || names[0] in running {
    } else {
      FirstRunningIsHead(names[1..], running);
    }
  }

  /** The single lookup finds the first name that is running. */
  lemma {:induction false} FirstRunningMeans(names: seq<string>, running: set<string>)
    ensures match FirstRunning(names, running)
            case None => forall i :: 0 <= i < |names| ==> names[i] !in running
            case Some(name) =>
              exists i :: 0 <= i < |names| && names[i] == name && name in running
                          && forall j :: 0 <= j < i ==> names[j] !in running
    decreases |names|
  {
    if names == [] || names[0] in running {
    } else {
      var rest := names[1..];
      assert forall i :: 0 < i < |names| ==> names[i] == rest[i - 1];
      FirstRunningMeans(rest, running);
      if FirstRunning(rest, running).Some? {
        var i :| 0 <= i < |rest| && rest[i] == FirstRunning(rest, running).value
                 && forall j :: 0 <= j < i ==> rest[j] !in running;
        assert names[i + 1] == rest[i];
      }
    }
  }

  /** The other lookup keeps the order of the index. */
  lemma {:induction false} RunningAmongInOrder(names: seq<string>, running: set<string>, a: nat, b: nat)
    returns (i: nat, j: nat)
    requires a < b < |RunningAmong(names, running)|
    ensures i < j < |names|
    ensures names[i] == RunningAmong(names, running)[a] && names[j] == RunningAmong(names, running)[b]
    decreases |names|
  {
    if names[0] !in running {
      i, j := RunningAmongInOrder(names[1..], running, a, b);
      i, j := i + 1, j + 1;
    } else if a > 0 {
      i, j := RunningAmongInOrder(names[1..], running, a - 1, b - 1);
      i, j := i + 1, j + 1;
    } else {
      j := RunningAmongAt(names[1..], running, b - 1);
      i, j := 0, j + 1;
    }
  }

  lemma {:induction false} RunningAmongAt(names: seq<string>, running: set<string>, a: nat) returns (i: nat)
    requires a < |RunningAmong(names, running)|
    ensures i < |names| && names[i] == RunningAmong(names, running)[a]
    decreases |names|
  {
    if names[0] in running && a == 0 {
      i := 0;
    } else {
      i := RunningAmongAt(names[1..], running, if names[0] in running then a - 1 else a);
      i := i + 1;
    }
  }

  /** The capability lookups agree with a scan over the registered services: exactly the started services
      whose current instance declares the capability, each once; the single lookup finds one of them
      whenever there is one. */
  lemma LookupIsScan(s: State, cap: string)
    requires IndexAgrees(s.registered, s.capabilities)
    ensures var found := RunningAmong(Lookup(s.capabilities, cap), Names(s.started));
            && NoDuplicates(found)
            && (forall name :: name in found <==>
                  name in s.started && name in s.registered && cap in s.registered[name].capabilities)
    ensures match FirstRunning(Lookup(s.capabilities, cap), Names(s.started))
            case None =>
              forall name :: name in s.started && name in s.registered ==> cap !in s.registered[name].capabilities
            case Some(name) => name in s.started && name in s.registered && cap in s.registered[name].capabilities
  {
    assert IndexedAt(s.registered, s.capabilities, cap);
    RunningAmongMeans(Lookup(s.capabilities, cap), Names(s.started));
    FirstRunningIsHead(Lookup(s.capabilities, cap), Names(s.started));
    var found := RunningAmong(Lookup(s.capabilities, cap), Names(s.started));
    if found != [] {
      assert found[0] in found;
    }
  }
}

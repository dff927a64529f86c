/** The browser's table of pending RPCs: replies, timeouts, and deadlines that progress events push back.

    Time is in milliseconds. A timer is live from `setTimeout` until it fires or is cleared; it may fire at
    any moment from its due time on. */
module RpcTable {
  import opened Wrappers

  datatype Pending = Pending(timer: nat, timeout: nat, conversation: Option<string>)

  datatype Timer = Timer(ref: nat, due: int)

  datatype Outcome = Resolved | Rejected(code: int)

  /** A call of a promise's resolve or reject function. */
  datatype Settlement = Settlement(ref: nat, outcome: Outcome)

  datatype State = State(
    now: int,
    pending: map<nat, Pending>,
    timers: map<nat, Timer>,
    settled: seq<Settlement>,
    nextRef: nat,
    nextTimer: nat)

  /** What a bus event carries: a `data.ref`, whether its type is one of the listed stream and tool types,
      and a `data.conversation_id`. */
  datatype Event = Event(ref: Option<nat>, progress: bool, conversation: Option<string>)

  datatype Step =
    | Rpc(timeout: nat, conversation: Option<string>)
    | Reply(ref: nat, error: Option<int>)
    | Notify(event: Event)
    | Fire(timer: nat)
    | RejectAll(code: int)
    | Elapse(ms: nat)

  const EMPTY: State := State(0, map[], map[], [], 0, 0)

  // ---- operations on the state ---------------------------------------------------------------

  function Added(s: State, timeout: nat, conversation: Option<string>): State {
    s.(pending := s.pending[s.nextRef := Pending(s.nextTimer, timeout, conversation)],
       timers := s.timers[s.nextTimer := Timer(s.nextRef, s.now + timeout)],
       nextRef := s.nextRef + 1,
       nextTimer := s.nextTimer + 1)
  }

  function Replied(s: State, ref: nat, error: Option<int>): State {
    if ref !in s.pending then s
    else s.(pending := s.pending - {ref},
            timers := s.timers - {s.pending[ref].timer},
            settled := s.settled + [Settlement(ref, if error.Some? then Rejected(error.value) else Resolved)])
  }

  /** Replace the timer of a pending entry by one that is due a full budget from now. */
  function Reset(s: State, ref: nat): State {
    if ref !in s.pending then s
    else
      var entry := s.pending[ref];
      s.(pending := s.pending[ref := entry.(timer := s.nextTimer)],
         timers := (s.timers - {entry.timer})[s.nextTimer := Timer(ref, s.now + entry.timeout)],
         nextTimer := s.nextTimer + 1)
  }

  function ResetAll(s: State, refs: seq<nat>): State
    decreases |refs|
  {
    if refs == [] then s else ResetAll(Reset(s, refs[0]), refs[1..])
  }

  /** The timeout callback. */
  function Fired(s: State, timer: nat): State
    requires timer in s.timers
  {
    s.(timers := s.timers - {timer},
       pending := s.pending - {s.timers[timer].ref},
       settled := s.settled + [Settlement(s.timers[timer].ref, Rejected(408))])
  }

  // ---- which entries an event keeps alive ----------------------------------------------------

  predicate ByRef(event: Event, ref: nat) { event.ref == Some(ref) }

  predicate ByConversation(s: State, event: Event, ref: nat) {
    event.progress && event.conversation.Some? && event.conversation.value != ""
    && ref in s.pending && s.pending[ref].conversation == event.conversation
  }

  /** The event pushes back the deadline of the pending RPC `ref`. */
  predicate KeepsAlive(s: State, event: Event, ref: nat) {
    ref in s.pending && (ByRef(event, ref) || ByConversation(s, event, ref))
  }

  // ---- the table -----------------------------------------------------------------------------

  /** Every entry's timer is live and names it, every live timer is some entry's timer: one each. Deadlines
      never lie further ahead than the entry's budget. An id is pending exactly while its promise has not
      been settled, and no promise is settled twice. */
  ghost predicate Valid(s: State) {
    && (forall ref :: ref in s.pending ==>
          && ref < s.nextRef && s.pending[ref].timer in s.timers
          && s.timers[s.pending[ref].timer].ref == ref
          && s.timers[s.pending[ref].timer].due <= s.now + s.pending[ref].timeout)
    && (forall t :: t in s.timers ==>
          && t < s.nextTimer && s.timers[t].ref in s.pending && s.pending[s.timers[t].ref].timer == t)
    && (forall i :: 0 <= i < |s.settled| ==> s.settled[i].ref < s.nextRef && s.settled[i].ref !in s.pending)
    && (forall i, j :: 0 <= i < j < |s.settled| ==> s.settled[i].ref != s.settled[j].ref)
    && (forall ref: nat :: ref < s.nextRef && ref !in s.pending ==>
          exists i :: 0 <= i < |s.settled| && s.settled[i].ref == ref)
  }

  class Table {
    var now: int
    var pending: map<nat, Pending>
    var timers: map<nat, Timer>
    var settled: seq<Settlement>
    var nextRef: nat
    var nextTimer: nat

    function St(): State
      reads this
    {
      State(now, pending, timers, settled, nextRef, nextTimer)
    }

    constructor ()
      ensures St() == EMPTY && Valid(St())
    {
      now, pending, timers, settled, nextRef, nextTimer := 0, map[], map[], [], 0, 0;
      new;
      EmptyIsValid();
    }

    method SetTimer(ref: nat, ms: nat) returns (timer: nat)
      modifies this`timers, this`nextTimer
      ensures timer == old(nextTimer) && nextTimer == timer + 1
      ensures timers == old(timers)[timer := Timer(ref, now + ms)]
    {
      timer := nextTimer;
      nextTimer := nextTimer + 1;
      timers := timers[timer := Timer(ref, now + ms)];
    }

    /** Register a pending RPC with its timeout; the result is the frame id. */
    method RpcWithRef(timeout: nat, conversation: Option<string>) returns (ref: nat)
      modifies this
      ensures ref == old(nextRef) && St() == Added(old(St()), timeout, conversation)
    {
      ref := nextRef;
      nextRef := nextRef + 1;
      var timer := SetTimer(ref, timeout);
      pending := pending[ref := Pending(timer, timeout, conversation)];
    }

    /** Route a reply to its pending promise; the result says whether it was one. */
    method OnReply(ref: nat, error: Option<int>) returns (routed: bool)
      modifies this
      ensures routed == (ref in old(pending)) && St() == Replied(old(St()), ref, error)
    {
      if ref !in pending {
        return false;
      }
      var entry := pending[ref];
      pending := pending - {ref};
      timers := timers - {entry.timer};
      settled := settled + [Settlement(ref, if error.Some? then Rejected(error.value) else Resolved)];
      return true;
    }

    method ResetDeadline(ref: nat)
      requires ref in pending && pending[ref].timer < nextTimer
      modifies this`pending, this`timers, this`nextTimer
      ensures St() == Reset(old(St()), ref)
    {
      var entry := pending[ref];
      timers := timers - {entry.timer};
      var timer := SetTimer(ref, entry.timeout);
      pending := pending[ref := entry.(timer := timer)];
    }

    /** Push back the deadlines of every pending RPC on the event's conversation. */
    method ResetConversation(event: Event) returns (resets: seq<nat>)
      requires Valid(St())
      modifies this
      ensures Valid(St()) && St() == ResetAll(old(St()), resets)
      ensures forall ref :: ref in resets <==> ByConversation(old(St()), event, ref)
    {
      hide Valid, Reset, ResetAll;
      resets := [];
      NoResets(St());
      if !event.progress || event.conversation.None? || event.conversation.value == "" {
        return;
      }
      var left := pending.Keys;
      while left != {}
        invariant Valid(St()) && St() == ResetAll(old(St()), resets)
        invariant left <= pending.Keys == old(pending.Keys)
        invariant forall ref :: ref in pending ==> pending[ref].conversation == old(pending)[ref].conversation
        invariant forall ref :: ref in resets <==>
                    ref in pending && ref !in left && ByConversation(old(St()), event, ref)
        decreases left
      {
        var ref :| ref in left;
        left := left - {ref};
        if pending[ref].conversation == event.conversation {
          EntryHasTimer(St(), ref);
          ResetKeepsValid(St(), ref);
          ResetAllAppends(old(St()), resets, ref);
          ResetDeadline(ref);
          resets := resets + [ref];
        }
      }
    }

    /** Push back the deadlines an event keeps alive. The result lists the resets made, in order. */
    method OnEvent(event: Event) returns (resets: seq<nat>)
      requires Valid(St())
      modifies this
      ensures Valid(St()) && St() == ResetAll(old(St()), resets)
      ensures forall ref :: ref in resets <==> KeepsAlive(old(St()), event, ref)
    {
      hide Valid, Reset, ResetAll;
      ghost var s := St();
      NoResets(s);
      if event.ref.Some? && event.ref.value in pending {
        var ref := event.ref.value;
        EntryHasTimer(s, ref);
        ResetKeepsValid(s, ref);
        ResetAllAppends(s, [], ref);
        ResetDeadline(ref);
        resets := ResetConversation(event);
        ResetAllJoins(s, ref, resets);
        resets := [ref] + resets;
      } else {
        resets := ResetConversation(event);
      }
    }

    /** A live timer fires at or after its due time. */
    method OnTimeout(timer: nat)
      requires timer in timers && timers[timer].due <= now
      modifies this
      ensures St() == Fired(old(St()), timer)
    {
      var ref := timers[timer].ref;
      timers := timers - {timer};
      pending := pending - {ref};
      settled := settled + [Settlement(ref, Rejected(408))];
    }

    /** Reject everything pending and clear the table. The result lists the promises rejected, in order. */
    method RejectAllPending(code: int) returns (refs: seq<nat>)
      requires Valid(St())
      modifies this
      ensures Valid(St()) && pending == map[] && timers == map[]
      ensures EachPendingOnce(old(St()), refs) && St() == RejectedAll(old(St()), refs, code)
    {
      hide Valid, Replied;
      var left := pending.Keys;
      refs := [];
      NoneRejected(St(), code);
      while left != {}
        invariant Valid(St()) && pending.Keys == left <= old(pending.Keys)
        invariant forall ref :: ref in refs <==> ref in old(pending) && ref !in left
        invariant St() == RejectedAll(old(St()), refs, code)
        decreases left
      {
        var ref :| ref in left;
        left := left - {ref};
        ReplyKeepsValid(St(), ref, Some(code));
        RejectedAllAppends(old(St()), refs, code, ref);
        ReplyForgets(St(), ref, Some(code));
        var _ := OnReply(ref, Some(code));
        refs := refs + [ref];
      }
      NoTimersWhenEmpty(St());
    }
  }

  lemma NoneRejected(s: State, code: int)
    ensures RejectedAll(s, [], code) == s
  {
  }

  lemma ReplyForgets(s: State, ref: nat, error: Option<int>)
    ensures Replied(s, ref, error).pending.Keys == s.pending.Keys - {ref}
  {
  }

  lemma {:induction false} RejectedAllAppends(s: State, refs: seq<nat>, code: int, ref: nat)
    ensures RejectedAll(s, refs + [ref], code) == Replied(RejectedAll(s, refs, code), ref, Some(code))
    decreases |refs|
  {
    hide Replied;
    if refs != [] {
      assert (refs + [ref])[1..] == refs[1..] + [ref];
      RejectedAllAppends(Replied(s, refs[0], Some(code)), refs[1..], code, ref);
    } else {
      assert refs + [ref] == [ref];
    }
  }

  lemma NoTimersWhenEmpty(s: State)
    requires Valid(s) && s.pending == map[]
    ensures s.timers == map[]
  {
    if t :| t in s.timers {
      assert s.timers[t].ref in s.pending;
    }
  }

  // ---- every operation keeps the table valid -------------------------------------------------

  lemma AddKeepsValid(s: State, timeout: nat, conversation: Option<string>)
    requires Valid(s)
    ensures Valid(Added(s, timeout, conversation))
  {
    assert s.nextRef !in s.pending && s.nextTimer !in s.timers;
    var t := Added(s, timeout, conversation);
    forall ref: nat | ref < t.nextRef && ref !in t.pending
      ensures exists i :: 0 <= i < |t.settled| && t.settled[i].ref == ref
    {
      assert ref < s.nextRef && ref !in s.pending;
    }
  }

  lemma ReplyKeepsAccount(s: State, ref: nat, error: Option<int>, r: nat)
    requires Valid(s) && r < s.nextRef && r !in Replied(s, ref, error).pending
    ensures var t := Replied(s, ref, error); exists i :: 0 <= i < |t.settled| && t.settled[i].ref == r
  {
    var t := Replied(s, ref, error);
    if ref in s.pending && r == ref {
      assert t.settled[|s.settled|].ref == r;
    } else {
      var i :| 0 <= i < |s.settled| && s.settled[i].ref == r;
      assert t.settled[i].ref == r;
    }
  }

  lemma ReplyKeepsValid(s: State, ref: nat, error: Option<int>)
    requires Valid(s)
    ensures Valid(Replied(s, ref, error))
  {
    if ref in s.pending {
      var t := Replied(s, ref, error);
      forall r: nat | r < t.nextRef && r !in t.pending
        ensures exists i :: 0 <= i < |t.settled| && t.settled[i].ref == r
      {
        ReplyKeepsAccount(s, ref, error, r);
      }
      assert forall i :: 0 <= i < |s.settled| ==> t.settled[i] == s.settled[i];
      assert forall r :: r in t.pending ==> r in s.pending && t.pending[r] == s.pending[r] && r != ref;
    }
  }

  lemma ResetKeepsValid(s: State, ref: nat)
    requires Valid(s)
    ensures Valid(Reset(s, ref))
    ensures Reset(s, ref).pending.Keys == s.pending.Keys
    ensures forall r :: r in s.pending ==> Reset(s, ref).pending[r].conversation == s.pending[r].conversation
  {
    assert s.nextTimer !in s.timers;
  }

  lemma EntryHasTimer(s: State, ref: nat)
    requires Valid(s) && ref in s.pending
    ensures s.pending[ref].timer < s.nextTimer
  {
  }

  lemma FireKeepsValid(s: State, timer: nat)
    requires Valid(s) && timer in s.timers
    ensures Valid(Fired(s, timer))
  {
    var ref := s.timers[timer].ref;
    assert Fired(s, timer) == Replied(s, ref, Some(408));
    ReplyKeepsValid(s, ref, Some(408));
  }

  lemma {:induction false} ResetAllAppends(s: State, refs: seq<nat>, ref: nat)
    ensures ResetAll(s, refs + [ref]) == Reset(ResetAll(s, refs), ref)
    decreases |refs|
  {
    hide Reset;
    if refs != [] {
      assert (refs + [ref])[1..] == refs[1..] + [ref];
      ResetAllAppends(Reset(s, refs[0]), refs[1..], ref);
    } else {
      assert refs + [ref] == [ref];
    }
  }

  lemma NoResets(s: State)
    ensures ResetAll(s, []) == s
  {
  }

  lemma ResetAllJoins(s: State, ref: nat, refs: seq<nat>)
    ensures ResetAll(s, [ref] + refs) == ResetAll(Reset(s, ref), refs)
  {
    hide Reset;
    assert ([ref] + refs)[1..] == refs;
  }

  // ---- whole runs ----------------------------------------------------------------------------

  ghost predicate StepsTo(s: State, step: Step, t: State) {
    match step
    case Rpc(timeout, conversation) => t == Added(s, timeout, conversation)
    case Reply(ref, error) => t == Replied(s, ref, error)
    case Notify(event) => exists resets :: ResetsFor(s, event, resets) && t == ResetAll(s, resets)
    case Fire(timer) => timer in s.timers && s.timers[timer].due <= s.now && t == Fired(s, timer)
    case RejectAll(code) => exists refs :: EachPendingOnce(s, refs) && t == RejectedAll(s, refs, code)
    case Elapse(ms) => t == s.(now := s.now + ms)
  }

  /** An event resets exactly the entries it keeps alive, in whatever order. */
  ghost predicate ResetsFor(s: State, event: Event, resets: seq<nat>) {
    forall ref :: ref in resets <==> KeepsAlive(s, event, ref)
  }

  ghost predicate EachPendingOnce(s: State, refs: seq<nat>) {
    forall ref :: ref in refs <==> ref in s.pending
  }

  function RejectedAll(s: State, refs: seq<nat>, code: int): State
    decreases |refs|
  {
    if refs == [] then s else RejectedAll(Replied(s, refs[0], Some(code)), refs[1..], code)
  }

  ghost predicate IsRun(s: State, steps: seq<Step>, t: State)
    decreases |steps|
  {
    if steps == [] then s == t
    else exists m :: StepsTo(s, steps[0], m) && IsRun(m, steps[1..], t)
  }

  lemma {:induction false} RejectingKeepsValid(s: State, refs: seq<nat>, code: int)
    requires Valid(s)
    ensures Valid(RejectedAll(s, refs, code))
    decreases |refs|
  {
    hide Valid, Replied;
    if refs == [] {
    } else {
      ReplyKeepsValid(s, refs[0], Some(code));
      RejectingKeepsValid(Replied(s, refs[0], Some(code)), refs[1..], code);
    }
  }

  lemma {:induction false} ResettingKeepsValid(s: State, refs: seq<nat>)
    requires Valid(s)
    ensures Valid(ResetAll(s, refs))
    decreases |refs|
  {
    hide Valid, Reset;
    if refs == [] {
    } else {
      ResetKeepsValid(s, refs[0]);
      ResettingKeepsValid(Reset(s, refs[0]), refs[1..]);
    }
  }

  lemma StepKeepsValid(s: State, step: Step, t: State)
    requires Valid(s) && StepsTo(s, step, t)
    ensures Valid(t)
  {
    hide Added, Replied, Fired, ResetAll, RejectedAll;
    match step
    case Rpc(timeout, conversation) => AddKeepsValid(s, timeout, conversation);
    case Reply(ref, error) => ReplyKeepsValid(s, ref, error);
    case Notify(event) =>
      var resets :| ResetsFor(s, event, resets) && t == ResetAll(s, resets);
      ResettingKeepsValid(s, resets);
    case Fire(timer) => FireKeepsValid(s, timer);
    case RejectAll(code) =>
      var refs :| EachPendingOnce(s, refs) && t == RejectedAll(s, refs, code);
      RejectingKeepsValid(s, refs, code);
    case Elapse(ms) =>
  }

  /** In every run an id is pending exactly while its promise is unsettled, every promise is settled at most
      once, and every pending entry has exactly one live timer. */
  lemma {:induction false} EveryRunIsValid(s: State, steps: seq<Step>, t: State)
    requires Valid(s) && IsRun(s, steps, t)
    ensures Valid(t)
    decreases |steps|
  {
    hide Valid, StepsTo;
    if steps == [] {
    } else {
      var m :| StepsTo(s, steps[0], m) && IsRun(m, steps[1..], t);
      StepKeepsValid(s, steps[0], m);
      EveryRunIsValid(m, steps[1..], t);
    }
  }

  lemma EmptyIsValid()
    ensures Valid(EMPTY)
  {
  }

  // ---- what each promise is settled with -----------------------------------------------------

  /** The step settles a pending promise, with the outcome it calls for: a reply resolves it or rejects it with
      the reply's code, a timeout rejects it with 408, and giving up rejects everything pending. */
  ghost predicate Settles(s: State, step: Step, x: Settlement) {
    x.ref in s.pending &&
    match step
    case Reply(ref, error) =>
      && x.ref == ref
      && (error.None? ==> x.outcome == Resolved) && (error.Some? ==> x.outcome == Rejected(error.value))
    case Fire(timer) => s.pending[x.ref].timer == timer && x.outcome == Rejected(408)
    case RejectAll(code) => x.outcome == Rejected(code)
    case _ => false
  }

  lemma ReplySettles(s: State, ref: nat, error: Option<int>, x: Settlement)
    ensures s.settled <= Replied(s, ref, error).settled
    ensures x in Replied(s, ref, error).settled <==> x in s.settled || Settles(s, Reply(ref, error), x)
  {
  }

  lemma {:induction false} RejectingSettles(s: State, refs: seq<nat>, code: int, x: Settlement)
    ensures s.settled <= RejectedAll(s, refs, code).settled
    ensures x in RejectedAll(s, refs, code).settled <==>
      x in s.settled || (x.ref in s.pending && x.ref in refs && x.outcome == Rejected(code))
    decreases |refs|
  {
    hide Replied;
    if refs == [] {
    } else {
      var m := Replied(s, refs[0], Some(code));
      assert refs == [refs[0]] + refs[1..];
      ReplySettles(s, refs[0], Some(code), x);
      ReplyForgets(s, refs[0], Some(code));
      RejectingSettles(m, refs[1..], code, x);
    }
  }

  lemma {:induction false} ResettingSettlesNothing(s: State, refs: seq<nat>)
    ensures ResetAll(s, refs).settled == s.settled
    decreases |refs|
  {
    if refs == [] {
    } else {
      ResettingSettlesNothing(Reset(s, refs[0]), refs[1..]);
    }
  }

  /** A step settles exactly the promises it is about, after those settled before. */
  lemma StepSettles(s: State, step: Step, t: State, x: Settlement)
    requires Valid(s) && StepsTo(s, step, t)
    ensures s.settled <= t.settled
    ensures x in t.settled <==> x in s.settled || Settles(s, step, x)
  {
    hide ResetAll, RejectedAll, Replied, Reset;
    match step
    case Reply(ref, error) => ReplySettles(s, ref, error, x);
    case Notify(event) =>
      var resets :| ResetsFor(s, event, resets) && t == ResetAll(s, resets);
      ResettingSettlesNothing(s, resets);
    case Fire(timer) =>
      TimerIsOwned(s, timer);
      FiredSettles(s, timer, x);
    case RejectAll(code) =>
      var refs :| EachPendingOnce(s, refs) && t == RejectedAll(s, refs, code);
      RejectingSettles(s, refs, code, x);
    case _ =>
  }

  lemma FiredSettles(s: State, timer: nat, x: Settlement)
    requires Valid(s) && timer in s.timers
    ensures s.settled <= Fired(s, timer).settled
    ensures x in Fired(s, timer).settled <==> x in s.settled || Settles(s, Fire(timer), x)
  {
    TimerIsOwned(s, timer);
  }

  /** `states` are those a table goes through as the steps are taken. */
  ghost predicate IsTrace(states: seq<State>, steps: seq<Step>) {
    |states| == |steps| + 1 && forall i :: 0 <= i < |steps| ==> StepsTo(states[i], steps[i], states[i + 1])
  }

  /** In every run from an empty table, a promise has been settled in a given way if and only if some step
      settled it so. */
  lemma {:induction false} SettledMeans(states: seq<State>, steps: seq<Step>, n: nat, x: Settlement)
    requires IsTrace(states, steps) && states[0] == EMPTY && n <= |steps|
    ensures Valid(states[n])
    ensures x in states[n].settled <==> exists i :: 0 <= i < n && Settles(states[i], steps[i], x)
    decreases n
  {
    hide Valid, StepsTo, Settles;
    if n == 0 {
      EmptyIsValid();
    } else {
      SettledMeans(states, steps, n - 1, x);
      StepKeepsValid(states[n - 1], steps[n - 1], states[n]);
      StepSettles(states[n - 1], steps[n - 1], states[n], x);
    }
  }

  /** How much time the steps let pass, and how many RPCs they make. */
  function Elapsed(steps: seq<Step>): nat {
    if steps == [] then 0
    else Elapsed(steps[..|steps| - 1]) + if steps[|steps| - 1].Elapse? then steps[|steps| - 1].ms else 0
  }

  function Calls(steps: seq<Step>): nat {
    if steps == [] then 0 else Calls(steps[..|steps| - 1]) + if steps[|steps| - 1].Rpc? then 1 else 0
  }

  /** The clock shows the time let pass, and ids are given out in the order of the calls. */
  lemma {:induction false} ClockMeans(states: seq<State>, steps: seq<Step>, n: nat)
    requires IsTrace(states, steps) && states[0] == EMPTY && n <= |steps|
    ensures states[n].now == Elapsed(steps[..n]) && states[n].nextRef == Calls(steps[..n])
    decreases n
  {
    hide ResetAll, RejectedAll, Reset;
    if n == 0 {
    } else {
      var s, step, t := states[n - 1], steps[n - 1], states[n];
      assert steps[..n][..n - 1] == steps[..n - 1];
      ClockMeans(states, steps, n - 1);
      match step
      case Notify(event) =>
        var resets :| ResetsFor(s, event, resets) && t == ResetAll(s, resets);
        ResetAllSamePending(s, resets);
        ResetAllSameClock(s, resets);
      case RejectAll(code) =>
        var refs :| EachPendingOnce(s, refs) && t == RejectedAll(s, refs, code);
        RejectedAllNextRef(s, refs, code);
      case _ =>
    }
  }

  lemma {:induction false} ResetAllSameClock(s: State, refs: seq<nat>)
    ensures ResetAll(s, refs).now == s.now
    decreases |refs|
  {
    if refs == [] {
    } else {
      ResetAllSameClock(Reset(s, refs[0]), refs[1..]);
    }
  }

  // ---- deadlines -----------------------------------------------------------------------------

  function Due(s: State, ref: nat): int
    requires ref in s.pending && s.pending[ref].timer in s.timers
  {
    s.timers[s.pending[ref].timer].due
  }

  /** `ref` is still the same pending RPC in `t`, with a deadline no earlier than in `s`. */
  ghost predicate NoSooner(s: State, t: State, ref: nat) {
    && ref in s.pending && ref in t.pending && t.pending[ref].timeout == s.pending[ref].timeout
    && s.pending[ref].timer in s.timers && t.pending[ref].timer in t.timers && Due(s, ref) <= Due(t, ref)
  }

  lemma ResetNoSooner(s: State, r: nat, ref: nat)
    requires Valid(s) && ref in s.pending
    ensures NoSooner(s, Reset(s, r), ref)
    ensures r == ref ==> Due(Reset(s, r), ref) == s.now + s.pending[ref].timeout
    ensures Reset(s, r).now == s.now
  {
    assert s.nextTimer !in s.timers;
  }

  /** An event that keeps `ref` alive gives it its full budget again from now; other events leave its
      deadline alone. */
  lemma {:induction false} EventDeadline(s: State, refs: seq<nat>, ref: nat)
    requires Valid(s) && ref in s.pending
    ensures NoSooner(s, ResetAll(s, refs), ref) && ResetAll(s, refs).now == s.now
    ensures ref in refs ==> Due(ResetAll(s, refs), ref) == s.now + s.pending[ref].timeout
    ensures ref !in refs ==> Due(ResetAll(s, refs), ref) == Due(s, ref)
    decreases |refs|
  {
    hide Valid, Reset;
    if refs == [] {
      EntryIsTimed(s, ref);
    } else {
      var m := Reset(s, refs[0]);
      ResetKeepsValid(s, refs[0]);
      ResetNoSooner(s, refs[0], ref);
      EventDeadline(m, refs[1..], ref);
      assert refs == [refs[0]] + refs[1..];
      if refs[0] != ref { ResetOther(s, refs[0], ref); }
    }
  }

  lemma EntryIsTimed(s: State, ref: nat)
    requires Valid(s) && ref in s.pending
    ensures s.pending[ref].timer in s.timers && s.timers[s.pending[ref].timer].ref == ref
    ensures Due(s, ref) <= s.now + s.pending[ref].timeout
  {
  }

  lemma ResetOther(s: State, r: nat, ref: nat)
    requires Valid(s) && ref in s.pending && r != ref
    ensures ref in Reset(s, r).pending && Reset(s, r).pending[ref].timer in Reset(s, r).timers
    ensures Due(Reset(s, r), ref) == Due(s, ref)
  {
    assert s.nextTimer !in s.timers;
  }

  lemma {:induction false} RejectedGone(s: State, refs: seq<nat>, code: int, ref: nat)
    requires ref in refs
    ensures ref !in RejectedAll(s, refs, code).pending
    decreases |refs|
  {
    if refs[0] == ref {
      StaysGone(Replied(s, ref, Some(code)), refs[1..], code, ref);
    } else {
      assert refs == [refs[0]] + refs[1..];
      RejectedGone(Replied(s, refs[0], Some(code)), refs[1..], code, ref);
    }
  }

  lemma {:induction false} StaysGone(s: State, refs: seq<nat>, code: int, ref: nat)
    requires ref !in s.pending
    ensures ref !in RejectedAll(s, refs, code).pending
    decreases |refs|
  {
    if refs == [] {
    } else {
      StaysGone(Replied(s, refs[0], Some(code)), refs[1..], code, ref);
    }
  }

  /** While an RPC stays pending its deadline never moves closer and time never runs back. */
  lemma StepNoSooner(s: State, step: Step, t: State, ref: nat)
    requires Valid(s) && StepsTo(s, step, t) && ref in s.pending && ref in t.pending
    ensures NoSooner(s, t, ref) && s.now <= t.now
  {
    hide ResetAll, RejectedAll;
    EntryIsTimed(s, ref);
    match step
    case Notify(event) =>
      var resets :| ResetsFor(s, event, resets) && t == ResetAll(s, resets);
      EventDeadline(s, resets, ref);
    case RejectAll(code) =>
      var refs :| EachPendingOnce(s, refs) && t == RejectedAll(s, refs, code);
      RejectedGone(s, refs, code, ref);
    case _ =>
      assert s.nextTimer !in s.timers;
  }

  lemma {:induction false} ResetAllSamePending(s: State, refs: seq<nat>)
    ensures ResetAll(s, refs).pending.Keys == s.pending.Keys && ResetAll(s, refs).nextRef == s.nextRef
    ensures forall r :: r in s.pending ==> ResetAll(s, refs).pending[r].conversation == s.pending[r].conversation
    decreases |refs|
  {
    if refs == [] {
    } else {
      ResetAllSamePending(Reset(s, refs[0]), refs[1..]);
    }
  }

  lemma {:induction false} RejectedAllNextRef(s: State, refs: seq<nat>, code: int)
    ensures RejectedAll(s, refs, code).nextRef == s.nextRef && RejectedAll(s, refs, code).now == s.now
    decreases |refs|
  {
    if refs == [] {
    } else {
      RejectedAllNextRef(Replied(s, refs[0], Some(code)), refs[1..], code);
    }
  }

  /** Ids are never reused: what is no longer pending never is again. */
  lemma StepStaysGone(s: State, step: Step, t: State, ref: nat)
    requires StepsTo(s, step, t) && ref < s.nextRef && ref !in s.pending
    ensures ref < t.nextRef && ref !in t.pending
  {
    hide ResetAll, RejectedAll;
    match step
    case Notify(event) =>
      var resets :| ResetsFor(s, event, resets) && t == ResetAll(s, resets);
      ResetAllSamePending(s, resets);
    case RejectAll(code) =>
      var refs :| EachPendingOnce(s, refs) && t == RejectedAll(s, refs, code);
      RejectedAllNextRef(s, refs, code);
      StaysGone(s, refs, code, ref);
    case _ =>
  }

  lemma {:induction false} RunStaysGone(s: State, steps: seq<Step>, t: State, ref: nat)
    requires IsRun(s, steps, t) && ref < s.nextRef && ref !in s.pending
    ensures ref !in t.pending
    decreases |steps|
  {
    hide StepsTo;
    if steps == [] {
    } else {
      var m :| StepsTo(s, steps[0], m) && IsRun(m, steps[1..], t);
      StepStaysGone(s, steps[0], m, ref);
      RunStaysGone(m, steps[1..], t, ref);
    }
  }

  lemma NextRefGrows(s: State, step: Step, t: State, ref: nat)
    requires Valid(s) && StepsTo(s, step, t) && ref in s.pending
    ensures ref < t.nextRef
  {
    hide ResetAll, RejectedAll;
    match step
    case Notify(event) =>
      var resets :| ResetsFor(s, event, resets) && t == ResetAll(s, resets);
      ResetAllSamePending(s, resets);
    case RejectAll(code) =>
      var refs :| EachPendingOnce(s, refs) && t == RejectedAll(s, refs, code);
      RejectedAllNextRef(s, refs, code);
    case _ =>
  }

  lemma {:induction false} RunNoSooner(s: State, steps: seq<Step>, t: State, ref: nat)
    requires Valid(s) && IsRun(s, steps, t) && ref in s.pending && ref in t.pending
    ensures NoSooner(s, t, ref) && s.now <= t.now
    decreases |steps|
  {
    hide Valid, StepsTo;
    if steps == [] {
      EntryIsTimed(s, ref);
    } else {
      var m :| StepsTo(s, steps[0], m) && IsRun(m, steps[1..], t);
      StepKeepsValid(s, steps[0], m);
      NextRefGrows(s, steps[0], m, ref);
      if ref !in m.pending { RunStaysGone(m, steps[1..], t, ref); }
      StepNoSooner(s, steps[0], m, ref);
      RunNoSooner(m, steps[1..], t, ref);
    }
  }

  /** The event names the RPC, or is a progress event of the conversation it belongs to. */
  ghost predicate Concerns(event: Event, ref: nat, conversation: Option<string>) {
    event.ref == Some(ref)
    || (event.progress && event.conversation.Some? && event.conversation.value != ""
        && event.conversation == conversation)
  }

  /** A timeout means silence: from any event that concerns a pending RPC, by its id or by its conversation,
      however the run continues, its timeout cannot fire until its whole budget has passed again. */
  lemma TimeoutMeansSilence(s: State, event: Event, m: State, steps: seq<Step>, t: State, timer: nat)
    requires Valid(s) && StepsTo(s, Notify(event), m) && IsRun(m, steps, t)
    requires timer in t.timers && t.timers[timer].due <= t.now
    requires var ref := t.timers[timer].ref; ref in s.pending && Concerns(event, ref, s.pending[ref].conversation)
    ensures t.now >= s.now + s.pending[t.timers[timer].ref].timeout
  {
    hide Valid, ResetAll;
    var ref := t.timers[timer].ref;
    var resets :| ResetsFor(s, event, resets) && m == ResetAll(s, resets);
    EventDeadline(s, resets, ref);
    StepKeepsValid(s, Notify(event), m);
    EveryRunIsValid(m, steps, t);
    TimerIsOwned(t, timer);
    RunNoSooner(m, steps, t, ref);
  }

  /** A new RPC has its whole budget too: however the run continues, its timeout cannot fire sooner. */
  lemma NewRpcHasItsBudget(s: State, timeout: nat, conversation: Option<string>, m: State, steps: seq<Step>, t: State,
                           timer: nat)
    requires Valid(s) && StepsTo(s, Rpc(timeout, conversation), m) && IsRun(m, steps, t)
    requires timer in t.timers && t.timers[timer].due <= t.now && t.timers[timer].ref == s.nextRef
    ensures t.now >= s.now + timeout
  {
    hide Valid, StepsTo;
    RpcIsPending(s, timeout, conversation, m);
    StepKeepsValid(s, Rpc(timeout, conversation), m);
    EveryRunIsValid(m, steps, t);
    TimerIsOwned(t, timer);
    RunNoSooner(m, steps, t, s.nextRef);
  }

  /** It is pending under a new id, on its conversation, due after its budget; no other entry changes. */
  lemma RpcIsPending(s: State, timeout: nat, conversation: Option<string>, m: State)
    requires Valid(s) && StepsTo(s, Rpc(timeout, conversation), m)
    ensures s.nextRef !in s.pending && s.nextRef in m.pending && m.pending.Keys == s.pending.Keys + {s.nextRef}
    ensures m.pending[s.nextRef].timeout == timeout && m.pending[s.nextRef].conversation == conversation
    ensures m.pending[s.nextRef].timer in m.timers && Due(m, s.nextRef) == s.now + timeout && m.now == s.now
    ensures forall ref :: ref in s.pending ==>
              && m.pending[ref] == s.pending[ref]
              && s.pending[ref].timer in s.timers && m.pending[ref].timer in m.timers && Due(m, ref) == Due(s, ref)
  {
  }

  lemma TimerIsOwned(s: State, timer: nat)
    requires Valid(s) && timer in s.timers
    ensures s.timers[timer].ref in s.pending && s.pending[s.timers[timer].ref].timer == timer
  {
  }

  /** No step is an event matching the RPC by id or conversation. */
  ghost predicate Silent(steps: seq<Step>, ref: nat, conversation: Option<string>) {
    forall i :: 0 <= i < |steps| && steps[i].Notify? ==> !Concerns(steps[i].event, ref, conversation)
  }

  lemma SilentStepKeepsDue(s: State, step: Step, t: State, ref: nat)
    requires Valid(s) && StepsTo(s, step, t) && ref in s.pending && ref in t.pending
    requires Silent([step], ref, s.pending[ref].conversation)
    ensures NoSooner(s, t, ref) && Due(t, ref) == Due(s, ref)
    ensures t.pending[ref].conversation == s.pending[ref].conversation
  {
    hide ResetAll, RejectedAll;
    EntryIsTimed(s, ref);
    match step
    case Notify(event) =>
      assert [step][0] == step;
      var resets :| ResetsFor(s, event, resets) && t == ResetAll(s, resets);
      EventDeadline(s, resets, ref);
      ResetAllSamePending(s, resets);
    case RejectAll(code) =>
      var refs :| EachPendingOnce(s, refs) && t == RejectedAll(s, refs, code);
      RejectedGone(s, refs, code, ref);
    case _ =>
      assert s.nextTimer !in s.timers;
  }

  lemma {:induction false} SilentRunKeepsDue(s: State, steps: seq<Step>, t: State, ref: nat)
    requires Valid(s) && IsRun(s, steps, t) && ref in s.pending && ref in t.pending
    requires Silent(steps, ref, s.pending[ref].conversation)
    ensures NoSooner(s, t, ref) && Due(t, ref) == Due(s, ref)
    decreases |steps|
  {
    hide Valid, StepsTo;
    if steps == [] {
      EntryIsTimed(s, ref);
    } else {
      var m :| StepsTo(s, steps[0], m) && IsRun(m, steps[1..], t);
      StepKeepsValid(s, steps[0], m);
      NextRefGrows(s, steps[0], m, ref);
      if ref !in m.pending { RunStaysGone(m, steps[1..], t, ref); }
      SilentStepKeepsDue(s, steps[0], m, ref);
      SilentRunKeepsDue(m, steps[1..], t, ref);
    }
  }

  /** The backstop: an RPC still pending after a whole budget without a matching event has a timeout that
      may fire. */
  lemma SilenceLetsItTimeOut(s: State, steps: seq<Step>, t: State, ref: nat)
    requires Valid(s) && IsRun(s, steps, t) && ref in s.pending && ref in t.pending
    requires Silent(steps, ref, s.pending[ref].conversation) && t.now >= s.now + s.pending[ref].timeout
    ensures t.pending[ref].timer in t.timers && t.timers[t.pending[ref].timer].due <= t.now
    ensures exists m :: StepsTo(t, Fire(t.pending[ref].timer), m) && Settlement(ref, Rejected(408)) in m.settled
  {
    hide Valid, IsRun;
    EntryIsTimed(s, ref);
    SilentRunKeepsDue(s, steps, t, ref);
    EveryRunIsValid(s, steps, t);
    EntryIsTimed(t, ref);
    var timer := t.pending[ref].timer;
    assert StepsTo(t, Fire(timer), Fired(t, timer));
    assert Fired(t, timer).settled[|t.settled|] == Settlement(ref, Rejected(408));
  }
}

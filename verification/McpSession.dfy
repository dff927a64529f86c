/** The remote MCP session: submitters queue requests and await futures, one task serves the queue.

    Each step is a stretch of the program that runs without yielding to the event loop; any number of
    submitters may run between two steps of the session task. Requests are numbered in the order they
    are accepted. */
module McpSession {

  datatype Future = Pending | Value | Error | Cancelled

  /** Where the session task is. */
  datatype Phase =
    | Connecting
    | Waiting                 // in `_pump`, for a request or the stop event
    | Holding(id: nat)        // a request has been dequeued, the stop event not yet looked at
    | Serving(id: nat)        // the call on the session is in flight
    | Raising                 // a request failed or the wait was cancelled; the queue is not drained yet
    | Unwinding               // drained once, leaving the session and the transport
    | Stopping                // `_pump` returned because of the stop event; leaving both
    | Ended

  datatype State = State(
    phase: Phase,
    connected: bool,
    stop: bool,
    failed: bool,             // the session task has seen an exception
    getter: bool,             // a cancelled wait left its queue getter behind
    queue: seq<nat>,
    futures: seq<Future>,     // one per accepted request
    taken: seq<nat>,          // every request dequeued so far, in order
    served: seq<nat>,         // those the session task answered, in order
    lost: set<nat>)           // dequeued, but nobody is left to answer

  datatype Step =
    | Connected
    | ConnectFails
    | Submit
    | Cancel(request: nat)
    | Close
    | Dequeue
    | SeeRequest
    | SeeStop
    | Succeeds
    | Fails
    | WaitCancelled
    | GetterWakes
    | Drain
    | Finish
    | ExitRaises

  const INITIAL: State := State(Connecting, false, false, false, false, [], [], [], [], {})

  // ---- futures -------------------------------------------------------------------------------

  predicate Done(s: State, id: nat) { id < |s.futures| && s.futures[id] != Pending }

  /** `if not future.done(): future.set_…`. */
  function Settle(futures: seq<Future>, id: nat, outcome: Future): seq<Future> {
    if id < |futures| && futures[id] == Pending then futures[id := outcome] else futures
  }

  function FailAll(futures: seq<Future>, ids: seq<nat>): seq<Future>
    decreases |ids|
  {
    if ids == [] then futures else FailAll(Settle(futures, ids[0], Error), ids[1..])
  }

  /** `_fail_pending`: resolve everything still queued, without yielding. */
  function Drained(s: State): State {
    s.(queue := [], taken := s.taken + s.queue, futures := FailAll(s.futures, s.queue))
  }

  // ---- steps ---------------------------------------------------------------------------------

  predicate Enabled(s: State, step: Step) {
    match step
    case Connected => s.phase == Connecting
    case ConnectFails => s.phase == Connecting
    case Submit => true
    case Cancel(request) => request < |s.futures|
    case Close => true
    case Dequeue => s.phase == Waiting && s.queue != []
    case SeeRequest => s.phase.Holding?
    case SeeStop => s.stop && (s.phase == Waiting || s.phase.Holding?)
    case Succeeds => s.phase.Serving?
    case Fails => s.phase.Serving?
    case WaitCancelled => s.phase == Waiting || s.phase.Holding?
    case GetterWakes => s.getter && s.queue != []
    case Drain => s.phase == Raising
    case Finish => s.phase == Unwinding || s.phase == Stopping
    case ExitRaises => s.phase == Stopping
  }

  /** The request in the session task's hands, if any. */
  function InHand(s: State): set<nat> {
    if s.phase.Holding? || s.phase.Serving? then {s.phase.id} else {}
  }

  function Next(s: State, step: Step): State
    requires Enabled(s, step)
  {
    match step
    case Connected => s.(connected := true, phase := Waiting)
    case ConnectFails => s.(phase := Ended, failed := true)
    case Submit =>
      if !s.connected then s
      else s.(futures := s.futures + [Pending], queue := s.queue + [|s.futures|])
    case Cancel(request) => s.(futures := Settle(s.futures, request, Cancelled))
    case Close => s.(stop := true)
    case Dequeue => s.(phase := Holding(s.queue[0]), queue := s.queue[1..], taken := s.taken + [s.queue[0]])
    case SeeRequest => s.(phase := Serving(s.phase.id))
    case SeeStop => s.(phase := Stopping, lost := s.lost + InHand(s))
    case Succeeds =>
      s.(phase := Waiting, served := s.served + [s.phase.id], futures := Settle(s.futures, s.phase.id, Value))
    case Fails =>
      s.(phase := Raising, failed := true, served := s.served + [s.phase.id],
         futures := Settle(s.futures, s.phase.id, Error))
    case WaitCancelled =>
      s.(phase := Raising, failed := true, lost := s.lost + InHand(s), getter := s.phase == Waiting)
    case GetterWakes =>
      s.(getter := false, queue := s.queue[1..], taken := s.taken + [s.queue[0]], lost := s.lost + {s.queue[0]})
    case Drain => Drained(s).(phase := Unwinding)
    case Finish =>
      if s.phase == Unwinding then Drained(s).(phase := Ended, connected := false)
      else s.(phase := Ended, connected := false)
    case ExitRaises => Drained(s).(phase := Ended, connected := false, failed := true)
  }

  ghost predicate IsRun(s: State, steps: seq<Step>, t: State)
    decreases |steps|
  {
    if steps == [] then s == t
    else Enabled(s, steps[0]) && IsRun(Next(s, steps[0]), steps[1..], t)
  }

  // ---- the invariant -------------------------------------------------------------------------

  function UpTo(n: nat): seq<nat> { seq(n, i requires 0 <= i < n => i) }

  predicate PumpActive(s: State) { s.phase.Connecting? || s.phase.Waiting? || s.phase.Holding? || s.phase.Serving? }

  /** Every accepted request is in exactly one place: done with, in hand, lost, or still queued in order. */
  ghost predicate Invariant(s: State) {
    && s.taken + s.queue == UpTo(|s.futures|)
    && (forall k :: 0 <= k < |s.taken| ==> Done(s, k) || k in InHand(s) || k in s.lost)
    && (forall k :: k in s.lost ==> k < |s.taken|)
    && (forall k :: k in InHand(s) ==> k == |s.taken| - 1)
    && s.served <= s.taken
    && (PumpActive(s) ==> s.lost == {} && |s.taken| == |s.served| + |InHand(s)| && !s.failed && !s.getter)
    && (s.connected <==> !(s.phase == Connecting || s.phase == Ended))
    && (s.phase == Connecting ==> s.futures == [])
    && (s.phase == Raising || s.phase == Unwinding ==> s.failed)
    && (s.phase == Ended && s.failed ==> s.queue == [])
    && (s.phase == Stopping ==> !s.failed)
    && (s.getter ==> s.failed && s.lost == {})
    && (s.phase == Stopping || (s.phase == Ended && !s.failed) ==> s.stop)
  }

  lemma {:induction false} FailAllFails(futures: seq<Future>, ids: seq<nat>)
    ensures |FailAll(futures, ids)| == |futures|
    ensures forall k :: 0 <= k < |futures| ==>
              FailAll(futures, ids)[k] == if k in ids && futures[k] == Pending then Error else futures[k]
    decreases |ids|
  {
    if ids == [] {
    } else {
      FailAllFails(Settle(futures, ids[0], Error), ids[1..]);
      assert ids == [ids[0]] + ids[1..];
    }
  }

  lemma Places(s: State)
    requires s.taken + s.queue == UpTo(|s.futures|)
    ensures |s.taken| + |s.queue| == |s.futures|
    ensures forall k :: 0 <= k < |s.taken| ==> s.taken[k] == k
    ensures forall k :: 0 <= k < |s.queue| ==> s.queue[k] == |s.taken| + k
    ensures forall k: nat :: |s.taken| <= k < |s.futures| ==> k in s.queue
  {
    var all := s.taken + s.queue;
    assert |all| == |s.futures|;
    forall k | 0 <= k < |s.taken| ensures s.taken[k] == k {
      assert all[k] == s.taken[k];
    }
    forall k | 0 <= k < |s.queue| ensures s.queue[k] == |s.taken| + k {
      assert all[|s.taken| + k] == s.queue[k];
    }
    forall k: nat | |s.taken| <= k < |s.futures| ensures k in s.queue {
      assert s.queue[k - |s.taken|] == k;
    }
  }

  lemma DrainResolvesAll(s: State)
    requires Invariant(s)
    ensures Drained(s).queue == [] && |Drained(s).futures| == |s.futures|
    ensures Drained(s).taken == UpTo(|s.futures|) && |Drained(s).taken| == |s.futures|
    ensures forall k: nat :: k < |s.futures| && Done(s, k) ==> Drained(s).futures[k] == s.futures[k]
    ensures forall k: nat :: k < |s.futures| ==> Drained(s).futures[k] != Pending || k in InHand(s) || k in s.lost
  {
    Places(s);
    FailAllFails(s.futures, s.queue);
  }

  lemma TakeFirst(s: State)
    requires s.taken + s.queue == UpTo(|s.futures|) && s.queue != []
    ensures s.queue[0] == |s.taken|
    ensures (s.taken + [s.queue[0]]) + s.queue[1..] == UpTo(|s.futures|)
  {
    Places(s);
    assert s.queue == [s.queue[0]] + s.queue[1..];
  }

  lemma SubmitAppends(s: State)
    requires s.taken + s.queue == UpTo(|s.futures|)
    ensures s.taken + (s.queue + [|s.futures|]) == UpTo(|s.futures| + 1)
  {
    assert s.taken + (s.queue + [|s.futures|]) == (s.taken + s.queue) + [|s.futures|];
  }

  /** Answering the request in hand extends the served requests in the order they were taken. */
  lemma AnswerInOrder(s: State)
    requires Invariant(s) && s.phase.Serving?
    ensures s.served + [s.phase.id] == s.taken && s.phase.id < |s.futures|
  {
    Places(s);
    assert s.phase.id in InHand(s);
    assert s.taken == s.taken[..|s.served|] + [s.taken[|s.taken| - 1]];
  }

  lemma SubmitKeepsInvariant(s: State)
    requires Invariant(s)
    ensures Invariant(Next(s, Submit))
  {
    hide UpTo;
    SubmitAppends(s);
  }

  lemma TakeKeepsInvariant(s: State, step: Step)
    requires Invariant(s) && Enabled(s, step) && (step.Dequeue? || step.GetterWakes?)
    ensures Invariant(Next(s, step))
  {
    hide UpTo;
    TakeFirst(s);
    var t := Next(s, step);
    assert s.taken <= t.taken && |t.taken| == |s.taken| + 1;
    assert s.served <= t.taken;
  }

  lemma DrainStepKeepsInvariant(s: State, step: Step)
    requires Invariant(s) && Enabled(s, step) && (step.Drain? || step.Finish? || step.ExitRaises?)
    ensures Invariant(Next(s, step))
  {
    hide Drained, UpTo;
    DrainResolvesAll(s);
    DrainOnlyMoves(s);
    var d := Drained(s);
    assert d.taken + [] == d.taken;
    assert s.served <= d.taken && |s.taken| <= |d.taken|;
    assert s.taken + [] == s.taken;
  }

  lemma DrainOnlyMoves(s: State)
    ensures Drained(s).phase == s.phase && Drained(s).connected == s.connected && Drained(s).stop == s.stop
    ensures Drained(s).failed == s.failed && Drained(s).getter == s.getter
    ensures Drained(s).served == s.served && Drained(s).lost == s.lost && s.taken <= Drained(s).taken
  {
  }

  lemma AnswerKeepsInvariant(s: State, step: Step)
    requires Invariant(s) && Enabled(s, step) && (step.Succeeds? || step.Fails?)
    ensures Invariant(Next(s, step))
  {
    hide UpTo;
    AnswerInOrder(s);
  }

  lemma StepKeepsInvariant(s: State, step: Step)
    requires Invariant(s) && Enabled(s, step)
    ensures Invariant(Next(s, step))
  {
    hide Drained, UpTo, Settle;
    if step.Submit? {
      SubmitKeepsInvariant(s);
    } else if step.Dequeue? || step.GetterWakes? {
      TakeKeepsInvariant(s, step);
    } else if step.Drain? || step.Finish? || step.ExitRaises? {
      DrainStepKeepsInvariant(s, step);
    } else if step.Succeeds? || step.Fails? {
      AnswerKeepsInvariant(s, step);
    } else {
      ControlStepKeepsInvariant(s, step);
    }
  }

  lemma ControlStepKeepsInvariant(s: State, step: Step)
    requires Invariant(s) && Enabled(s, step)
    requires step.Connected? || step.ConnectFails? || step.Cancel? || step.Close?
             || step.SeeRequest? || step.SeeStop? || step.WaitCancelled?
    ensures Invariant(Next(s, step))
  {
    hide Drained, UpTo;
    Places(s);
  }

  lemma InitialHolds()
    ensures Invariant(INITIAL)
  {
  }

  lemma {:induction false} RunKeepsInvariant(s: State, steps: seq<Step>, t: State)
    requires Invariant(s) && IsRun(s, steps, t)
    ensures Invariant(t)
    decreases |steps|
  {
    hide Invariant, Next;
    if steps == [] {
    } else {
      StepKeepsInvariant(s, steps[0]);
      RunKeepsInvariant(Next(s, steps[0]), steps[1..], t);
    }
  }

  // ---- what every run guarantees -------------------------------------------------------------

  /** In every interleaving, requests leave the queue in the order they were accepted, none twice and none
      skipped, and the session task answers them in that order. */
  lemma RequestsAreFifo(steps: seq<Step>, t: State)
    requires IsRun(INITIAL, steps, t)
    ensures t.taken + t.queue == UpTo(|t.futures|) && t.served <= t.taken
  {
    hide Next;
    InitialHolds();
    RunKeepsInvariant(INITIAL, steps, t);
  }

  /** A step never changes a future that is already resolved. */
  lemma StepKeepsResolved(s: State, step: Step, id: nat)
    requires Enabled(s, step) && Done(s, id)
    ensures id < |Next(s, step).futures| && Next(s, step).futures[id] == s.futures[id]
  {
    FailAllFails(s.futures, s.queue);
  }

  /** Each future is resolved at most once: its first outcome is its outcome for ever. */
  lemma {:induction false} ResolvedOnce(s: State, steps: seq<Step>, t: State, id: nat)
    requires IsRun(s, steps, t) && Done(s, id)
    ensures Done(t, id) && t.futures[id] == s.futures[id]
    decreases |steps|
  {
    hide Next;
    if steps == [] {
    } else {
      StepKeepsResolved(s, steps[0], id);
      ResolvedOnce(Next(s, steps[0]), steps[1..], t, id);
    }
  }

  /** What has happened in a run can be told from the state: whether the session was asked to stop, has failed,
      has ended, and is connected. */
  lemma {:induction false} FlagsMean(states: seq<State>, steps: seq<Step>, n: nat)
    requires IsTrace(states, steps) && n <= |steps|
    ensures states[n].stop <==> Close in steps[..n]
    ensures states[n].failed <==>
      ConnectFails in steps[..n] || Fails in steps[..n] || WaitCancelled in steps[..n] || ExitRaises in steps[..n]
    ensures states[n].phase == Ended <==>
      ConnectFails in steps[..n] || Finish in steps[..n] || ExitRaises in steps[..n]
    ensures states[n].connected <==> Connected in steps[..n] && states[n].phase != Ended
    ensures states[n].phase == Connecting <==> Connected !in steps[..n] && ConnectFails !in steps[..n]
    ensures states[n].phase == Raising <==> (Fails in steps[..n] || WaitCancelled in steps[..n]) && Drain !in steps[..n]
    ensures states[n].phase == Unwinding <==> Drain in steps[..n] && Finish !in steps[..n]
    ensures states[n].phase == Stopping <==> SeeStop in steps[..n] && states[n].phase != Ended
    decreases n
  {
    hide Next, Enabled, Invariant;
    TraceKeepsInvariant(states, steps, n);
    ConnectedMeans(states[n]);
    if n == 0 {
    } else {
      assert steps[..n] == steps[..n - 1] + [steps[n - 1]];
      FlagsMean(states, steps, n - 1);
      StepFlags(states[n - 1], steps[n - 1]);
      StepEnds(states[n - 1], steps[n - 1]);
      StepLeaves(states[n - 1], steps[n - 1]);
      StepNeeds(states[n - 1], steps[n - 1]);
    }
  }

  lemma ConnectedMeans(s: State)
    requires Invariant(s)
    ensures s.connected <==> !(s.phase == Connecting || s.phase == Ended)
  {
    hide UpTo;
  }

  lemma StepFlags(s: State, step: Step)
    requires Enabled(s, step)
    ensures Next(s, step).stop <==> s.stop || step == Close
    ensures Next(s, step).failed <==>
      s.failed || step == ConnectFails || step == Fails || step == WaitCancelled || step == ExitRaises
  {
    hide Drained;
    DrainOnlyMoves(s);
  }

  lemma StepEnds(s: State, step: Step)
    requires Enabled(s, step)
    ensures Next(s, step).phase == Ended <==>
      s.phase == Ended || step == ConnectFails || step == Finish || step == ExitRaises
    ensures Next(s, step).phase == Connecting <==> s.phase == Connecting && step != Connected && step != ConnectFails
  {
    hide Drained;
    DrainOnlyMoves(s);
  }

  lemma StepLeaves(s: State, step: Step)
    requires Enabled(s, step)
    ensures Next(s, step).phase == Raising <==>
      step == Fails || step == WaitCancelled || (s.phase == Raising && step != Drain)
    ensures Next(s, step).phase == Unwinding <==> step == Drain || (s.phase == Unwinding && step != Finish)
    ensures Next(s, step).phase == Stopping <==>
      step == SeeStop || (s.phase == Stopping && step != Finish && step != ExitRaises)
  {
    hide Drained;
    DrainOnlyMoves(s);
  }

  lemma StepNeeds(s: State, step: Step)
    requires Enabled(s, step)
    ensures step == ConnectFails || step == Connected ==> s.phase == Connecting
    ensures step == Fails ==> s.phase.Serving?
    ensures step == WaitCancelled || step == SeeStop ==> s.phase == Waiting || s.phase.Holding?
    ensures step == Drain ==> s.phase == Raising
    ensures step == Finish ==> s.phase == Unwinding || s.phase == Stopping
    ensures step == ExitRaises ==> s.phase == Stopping
  {
  }

  /** What may come next in each phase, besides what its users do at any time. */
  lemma ComesNext(s: State, step: Step)
    ensures Enabled(s, step) <==>
      || step == Submit || step == Close || (step.Cancel? && step.request < |s.futures|)
      || (step == GetterWakes && s.getter && s.queue != [])
      || match s.phase
         case Connecting => step == Connected || step == ConnectFails
         case Waiting => (step == Dequeue && s.queue != []) || (step == SeeStop && s.stop) || step == WaitCancelled
         case Holding(_) => step == SeeRequest || (step == SeeStop && s.stop) || step == WaitCancelled
         case Serving(_) => step == Succeeds || step == Fails
         case Raising => step == Drain
         case Unwinding => step == Finish
         case Stopping => step == Finish || step == ExitRaises
         case Ended => false
  {
  }

  /** The session task can always go on, unless it waits with nothing queued and no stop, or has ended. */
  lemma NeverStuck(s: State)
    ensures (exists step :: Enabled(s, step) && !step.Submit? && !step.Cancel? && !step.Close? && !step.GetterWakes?
                            && !step.WaitCancelled?) <==>
      !(s.phase == Ended || (s.phase == Waiting && s.queue == [] && !s.stop))
  {
    assert Enabled(s, Connected) <==> s.phase == Connecting;
    assert Enabled(s, Dequeue) <==> s.phase == Waiting && s.queue != [];
    assert Enabled(s, SeeRequest) <==> s.phase.Holding?;
    assert Enabled(s, SeeStop) <==> s.stop && (s.phase == Waiting || s.phase.Holding?);
    assert Enabled(s, Succeeds) <==> s.phase.Serving?;
    assert Enabled(s, Drain) <==> s.phase == Raising;
    assert Enabled(s, Finish) <==> s.phase == Unwinding || s.phase == Stopping;
  }

  // ---- what each request is answered with ----------------------------------------------------

  /** `states` are those a session goes through from its beginning as the steps are taken. */
  ghost predicate IsTrace(states: seq<State>, steps: seq<Step>) {
    && |states| == |steps| + 1 && states[0] == INITIAL
    && forall i :: 0 <= i < |steps| ==> Enabled(states[i], steps[i]) && states[i + 1] == Next(states[i], steps[i])
  }

  /** Every run has its trace. */
  lemma {:induction false} RunHasTrace(steps: seq<Step>, t: State) returns (states: seq<State>)
    requires IsRun(INITIAL, steps, t)
    ensures IsTrace(states, steps) && states[|steps|] == t
  {
    hide Next, Enabled;
    states := TraceFrom(INITIAL, steps, t);
  }

  lemma {:induction false} TraceFrom(s: State, steps: seq<Step>, t: State) returns (states: seq<State>)
    requires IsRun(s, steps, t)
    ensures |states| == |steps| + 1 && states[0] == s && states[|steps|] == t
    ensures forall i :: 0 <= i < |steps| ==> Enabled(states[i], steps[i]) && states[i + 1] == Next(states[i], steps[i])
    decreases |steps|
  {
    hide Next, Enabled;
    if steps == [] {
      states := [s];
    } else {
      var rest := TraceFrom(Next(s, steps[0]), steps[1..], t);
      states := [s] + rest;
      forall i | 0 <= i < |steps| ensures Enabled(states[i], steps[i]) && states[i + 1] == Next(states[i], steps[i]) {
        if i > 0 {
          assert states[i] == rest[i - 1] && steps[i] == steps[1..][i - 1];
        }
      }
    }
  }

  /** The call in flight succeeds, and it is the one for request `id`. */
  predicate Succeeding(s: State, step: Step, id: nat) { step == Succeeds && s.phase == Serving(id) }

  /** The call in flight for `id` fails, or `id` is still queued when the queue is drained. */
  predicate Failing(s: State, step: Step, id: nat) {
    || (step == Fails && s.phase == Serving(id))
    || ((step == Drain || step == ExitRaises || (step == Finish && s.phase == Unwinding)) && id in s.queue)
  }

  /** One step: only an unresolved future changes, to a value, an error or a cancellation as the step says. */
  lemma StepOutcome(s: State, step: Step, id: nat)
    requires Enabled(s, step) && id < |s.futures|
    ensures id < |Next(s, step).futures|
    ensures Next(s, step).futures[id] ==
      if s.futures[id] != Pending then s.futures[id]
      else if Succeeding(s, step, id) then Value
      else if Failing(s, step, id) then Error
      else if step == Cancel(id) then Cancelled
      else Pending
  {
    hide Drained;
    DrainSettles(s, id);
    if step.Drain? || step.ExitRaises? || step.Finish? {
      DrainIsOf(s, step);
    }
  }

  lemma DrainSettles(s: State, id: nat)
    requires id < |s.futures|
    ensures |Drained(s).futures| == |s.futures|
    ensures Drained(s).futures[id] == if s.futures[id] == Pending && id in s.queue then Error else s.futures[id]
  {
    FailAllFails(s.futures, s.queue);
  }

  lemma DrainIsOf(s: State, step: Step)
    requires Enabled(s, step) && (step.Drain? || step.ExitRaises? || step.Finish?)
    ensures Next(s, step).futures ==
      if step == Finish && s.phase == Stopping then s.futures else Drained(s).futures
  {
    hide FailAll;
  }

  /** A step accepts a request, unresolved, exactly when it submits one to a connected session. */
  lemma StepAccepts(s: State, step: Step)
    requires Enabled(s, step)
    ensures |Next(s, step).futures| == |s.futures| + if step == Submit && s.connected then 1 else 0
    ensures |Next(s, step).futures| > |s.futures| ==> Next(s, step).futures[|s.futures|] == Pending
  {
    FailAllFails(s.futures, s.queue);
  }

  /** The request has left the queue and is not in hand: it will not be answered any more. */
  predicate Behind(s: State, id: nat) { id < |s.taken| && id !in InHand(s) }

  lemma BehindStays(s: State, step: Step, id: nat)
    requires Invariant(s) && Enabled(s, step)
    requires Behind(s, id) || Succeeding(s, step, id) || Failing(s, step, id)
    ensures Behind(Next(s, step), id)
  {
    hide UpTo, FailAll, Settle, Invariant;
    PlacesOf(s);
    TakenGrows(s, step);
    assert s.phase == Serving(id) ==> id in InHand(s);
    if id in s.queue {
      var k :| 0 <= k < |s.queue| && s.queue[k] == id;
      assert id == |s.taken| + k;
    }
  }

  lemma PlacesOf(s: State)
    requires Invariant(s)
    ensures forall k :: k in InHand(s) ==> k == |s.taken| - 1
    ensures forall k :: 0 <= k < |s.queue| ==> s.queue[k] == |s.taken| + k
  {
    hide UpTo;
    Places(s);
  }

  lemma TakenGrows(s: State, step: Step)
    requires Enabled(s, step)
    ensures s.taken <= Next(s, step).taken
  {
    hide FailAll, Settle;
  }

  lemma BehindIsNotAnswered(s: State, step: Step, id: nat)
    requires Invariant(s) && Behind(s, id)
    ensures !Succeeding(s, step, id) && !Failing(s, step, id)
  {
    hide UpTo;
    Places(s);
  }

  lemma AnsweredIsAccepted(s: State, step: Step, id: nat)
    requires Invariant(s) && Enabled(s, step)
    requires Succeeding(s, step, id) || Failing(s, step, id) || step == Cancel(id)
    ensures id < |s.futures|
  {
    hide UpTo;
    Places(s);
    assert id in s.queue ==> exists k :: 0 <= k < |s.queue| && s.queue[k] == id;
  }

  /** Up to state `n` the request was answered with a value, and not cancelled before. */
  ghost predicate ValueBy(states: seq<State>, steps: seq<Step>, n: nat, id: nat)
    requires |states| > n && |steps| >= n
  {
    exists i :: 0 <= i < n && Succeeding(states[i], steps[i], id) && Cancel(id) !in steps[..i]
  }

  ghost predicate ErrorBy(states: seq<State>, steps: seq<Step>, n: nat, id: nat)
    requires |states| > n && |steps| >= n
  {
    exists i :: 0 <= i < n && Failing(states[i], steps[i], id) && Cancel(id) !in steps[..i]
  }

  /** It was cancelled, and not answered before. */
  ghost predicate CancelledBy(states: seq<State>, steps: seq<Step>, n: nat, id: nat)
    requires |states| > n && |steps| >= n
  {
    exists i :: 0 <= i < n && steps[i] == Cancel(id) && Unanswered(states, steps, i, id)
  }

  ghost predicate Unanswered(states: seq<State>, steps: seq<Step>, n: nat, id: nat)
    requires |states| > n && |steps| >= n
  {
    forall j :: 0 <= j < n ==> !Succeeding(states[j], steps[j], id) && !Failing(states[j], steps[j], id)
  }

  /** In every run a request has been resolved with a value if and only if its call succeeded and its submitter
      had not given up before; with an error if and only if its call failed, or it was queued when the queue
      was drained, and its submitter had not given up before; and it is cancelled if and only if its submitter
      gave up before either. */
  lemma {:induction false} OutcomeMeans(states: seq<State>, steps: seq<Step>, n: nat, id: nat)
    requires IsTrace(states, steps) && n <= |steps| && id < |states[n].futures|
    ensures states[n].futures[id] == Value <==> ValueBy(states, steps, n, id)
    ensures states[n].futures[id] == Error <==> ErrorBy(states, steps, n, id)
    ensures states[n].futures[id] == Cancelled <==> CancelledBy(states, steps, n, id)
    decreases n
  {
    hide Next, Enabled, Invariant, Succeeding, Failing;
    if n == 0 {
    } else {
      if id < |states[n - 1].futures| {
        OutcomeMeans(states, steps, n - 1, id);
        OutcomeStep(states, steps, n, id);
      } else {
        NothingBeforeAcceptance(states, steps, n, id);
      }
    }
  }

  /** One more step settles what `OutcomeMeans` says one step earlier. */
  lemma OutcomeStep(states: seq<State>, steps: seq<Step>, n: nat, id: nat)
    requires IsTrace(states, steps) && 0 < n <= |steps| && id < |states[n - 1].futures| && id < |states[n].futures|
    requires states[n - 1].futures[id] == Value <==> ValueBy(states, steps, n - 1, id)
    requires states[n - 1].futures[id] == Error <==> ErrorBy(states, steps, n - 1, id)
    requires states[n - 1].futures[id] == Cancelled <==> CancelledBy(states, steps, n - 1, id)
    ensures states[n].futures[id] == Value <==> ValueBy(states, steps, n, id)
    ensures states[n].futures[id] == Error <==> ErrorBy(states, steps, n, id)
    ensures states[n].futures[id] == Cancelled <==> CancelledBy(states, steps, n, id)
  {
    hide Next, Enabled, Invariant, Succeeding, Failing, ValueBy, ErrorBy, CancelledBy;
    var s, step := states[n - 1], steps[n - 1];
    TraceSteps(states, steps, n - 1);
    StepOutcome(s, step, id);
    OneAtATime(s, step, id);
    OneStepLater(states, steps, n, id);
    if s.futures[id] == Pending {
      PendingIsUntouched(states, steps, n - 1, id);
    } else if s.futures[id] == Cancelled {
      CancelledWasCancelled(states, steps, n - 1, id);
    } else {
      AnsweredIsBehind(states, steps, n - 1, id);
      BehindIsNotAnswered(s, step, id);
    }
  }

  /** Whether each has happened by one step later. */
  lemma OneStepLater(states: seq<State>, steps: seq<Step>, n: nat, id: nat)
    requires |states| == |steps| + 1 && 0 < n <= |steps|
    ensures ValueBy(states, steps, n, id) <==>
      || ValueBy(states, steps, n - 1, id)
      || (Succeeding(states[n - 1], steps[n - 1], id) && Cancel(id) !in steps[..n - 1])
    ensures ErrorBy(states, steps, n, id) <==>
      || ErrorBy(states, steps, n - 1, id)
      || (Failing(states[n - 1], steps[n - 1], id) && Cancel(id) !in steps[..n - 1])
    ensures CancelledBy(states, steps, n, id) <==>
      || CancelledBy(states, steps, n - 1, id)
      || (steps[n - 1] == Cancel(id) && Unanswered(states, steps, n - 1, id))
  {
    hide Succeeding, Failing, Unanswered;
  }

  lemma PendingIsUntouched(states: seq<State>, steps: seq<Step>, n: nat, id: nat)
    requires |states| == |steps| + 1 && n <= |steps|
    requires !ValueBy(states, steps, n, id) && !ErrorBy(states, steps, n, id) && !CancelledBy(states, steps, n, id)
    ensures Cancel(id) !in steps[..n] && Unanswered(states, steps, n, id)
  {
    hide Succeeding, Failing, ValueBy, ErrorBy, CancelledBy;
    forall i | 0 <= i < n ensures !Event(states[i], steps[i], id) {
      if Event(states[i], steps[i], id) {
        EventResolves(states, steps, i, n, id);
      }
    }
  }

  lemma CancelledWasCancelled(states: seq<State>, steps: seq<Step>, n: nat, id: nat)
    requires |states| == |steps| + 1 && n <= |steps| && CancelledBy(states, steps, n, id)
    ensures Cancel(id) in steps[..n]
  {
    hide Succeeding, Failing, Unanswered;
    var i :| 0 <= i < n && steps[i] == Cancel(id) && Unanswered(states, steps, i, id);
    assert steps[..n][i] == Cancel(id);
  }

  lemma AnsweredIsBehind(states: seq<State>, steps: seq<Step>, n: nat, id: nat)
    requires IsTrace(states, steps) && n <= |steps|
    requires ValueBy(states, steps, n, id) || ErrorBy(states, steps, n, id)
    ensures Behind(states[n], id) && Invariant(states[n]) && !Unanswered(states, steps, n, id)
  {
    hide Succeeding, Failing, Behind, Invariant, Next, Enabled;
    var i :| 0 <= i < n && (Succeeding(states[i], steps[i], id) || Failing(states[i], steps[i], id));
    BehindLater(states, steps, i, n, id);
  }

  lemma TraceSteps(states: seq<State>, steps: seq<Step>, i: nat)
    requires IsTrace(states, steps) && i < |steps|
    ensures |states| == |steps| + 1
    ensures Enabled(states[i], steps[i]) && states[i + 1] == Next(states[i], steps[i]) && Invariant(states[i])
  {
    hide Next, Enabled, Invariant;
    TraceKeepsInvariant(states, steps, i);
  }

  predicate Event(s: State, step: Step, id: nat) {
    Succeeding(s, step, id) || Failing(s, step, id) || step == Cancel(id)
  }

  lemma OneAtATime(s: State, step: Step, id: nat)
    ensures Succeeding(s, step, id) ==> !Failing(s, step, id) && step != Cancel(id)
    ensures Failing(s, step, id) ==> step != Cancel(id)
  {
  }

  /** Once something concerns the request, the first such thing has resolved it. */
  lemma {:induction false} EventResolves(states: seq<State>, steps: seq<Step>, i: nat, n: nat, id: nat)
    requires |states| == |steps| + 1 && i < n <= |steps| && Event(states[i], steps[i], id)
    ensures ValueBy(states, steps, n, id) || ErrorBy(states, steps, n, id) || CancelledBy(states, steps, n, id)
    decreases i
  {
    hide Succeeding, Failing;
    if j :| 0 <= j < i && Event(states[j], steps[j], id) {
      EventResolves(states, steps, j, n, id);
    } else {
      assert Cancel(id) !in steps[..i];
    }
  }

  lemma {:induction false} BehindLater(states: seq<State>, steps: seq<Step>, i: nat, n: nat, id: nat)
    requires IsTrace(states, steps) && i < n <= |steps|
    requires Succeeding(states[i], steps[i], id) || Failing(states[i], steps[i], id)
    ensures Behind(states[n], id) && Invariant(states[n])
    decreases n - i
  {
    hide Next, Enabled, Invariant, Succeeding, Failing, Behind;
    TraceSteps(states, steps, n - 1);
    if n > i + 1 {
      BehindLater(states, steps, i, n - 1, id);
    }
    BehindStays(states[n - 1], steps[n - 1], id);
    StepKeepsInvariant(states[n - 1], steps[n - 1]);
  }

  lemma {:induction false} AcceptedStays(states: seq<State>, steps: seq<Step>, i: nat, n: nat)
    requires IsTrace(states, steps) && i <= n <= |steps|
    ensures |states[i].futures| <= |states[n].futures|
    decreases n
  {
    hide Next, Enabled;
    if i == n {
    } else {
      AcceptedStays(states, steps, i, n - 1);
      StepAccepts(states[n - 1], steps[n - 1]);
    }
  }

  lemma NothingBeforeAcceptance(states: seq<State>, steps: seq<Step>, n: nat, id: nat)
    requires IsTrace(states, steps) && 0 < n <= |steps| && |states[n - 1].futures| <= id < |states[n].futures|
    ensures states[n].futures[id] == Pending
    ensures !ValueBy(states, steps, n, id) && !ErrorBy(states, steps, n, id) && !CancelledBy(states, steps, n, id)
  {
    hide Next, Enabled, Invariant, Succeeding, Failing, IsTrace;
    TraceSteps(states, steps, n - 1);
    StepAccepts(states[n - 1], steps[n - 1]);
    forall i | 0 <= i < n ensures !Event(states[i], steps[i], id) {
      TraceSteps(states, steps, i);
      AcceptedStays(states, steps, i, n - 1);
      if Event(states[i], steps[i], id) {
        AnsweredIsAccepted(states[i], steps[i], id);
      }
    }
  }

  lemma {:induction false} TraceKeepsInvariant(states: seq<State>, steps: seq<Step>, n: nat)
    requires IsTrace(states, steps) && n <= |steps|
    ensures Invariant(states[n])
    decreases n
  {
    hide Next, Enabled, Invariant;
    if n == 0 {
      InitialHolds();
    } else {
      TraceKeepsInvariant(states, steps, n - 1);
      StepKeepsInvariant(states[n - 1], steps[n - 1]);
    }
  }

  /** A call that succeeds is answered with its value. */
  lemma CallIsAnswered()
    ensures var steps := [Connected, Submit, Dequeue, SeeRequest, Succeeds];
            exists t :: IsRun(INITIAL, steps, t) && t.futures == [Value] && t.phase == Waiting
  {
    var s1 := Next(INITIAL, Connected);
    var s2 := Next(s1, Submit);
    var s3 := Next(s2, Dequeue);
    var s4 := Next(s3, SeeRequest);
    var t := Next(s4, Succeeds);
    RunFive(Connected, Submit, Dequeue, SeeRequest, Succeeds, s1, s2, s3, s4, t);
  }

  // ---- who is answered by the time a session has ended -------------------------------------------

  /** Draining resolves exactly what is still queued, so everything but what was lost. */
  lemma DrainExactly(s: State, id: nat)
    requires Invariant(s) && InHand(s) == {} && id < |s.futures|
    ensures Done(Drained(s), id) <==> Done(s, id) || id !in s.lost
  {
    Places(s);
    FailAllFails(s.futures, s.queue);
  }

  /** After the end, nothing is accepted and nothing but its own submitter giving up resolves a request. */
  lemma {:induction false} EndedResolvesNothing(s: State, post: seq<Step>, t: State, id: nat)
    requires s.phase == Ended && !s.connected && IsRun(s, post, t) && id < |t.futures|
    ensures |t.futures| == |s.futures| && t.phase == Ended && ExitRaises !in post
    ensures Done(t, id) <==> Done(s, id) || Cancel(id) in post
    decreases |post|
  {
    hide UpTo;
    if post == [] {
    } else {
      assert post == [post[0]] + post[1..];
      EndedResolvesNothing(Next(s, post[0]), post[1..], t, id);
    }
  }

  /** Once something has failed, everything is resolved by the end but what nobody was left to answer. */
  lemma {:induction false} FailedEnd(s: State, post: seq<Step>, t: State, id: nat)
    requires Invariant(s) && (s.phase == Raising || s.phase == Unwinding || (s.phase == Ended && s.failed))
    requires IsRun(s, post, t) && t.phase == Ended && id < |t.futures|
    requires s.getter ==> GetterWakes !in post
    ensures Done(t, id) <==> Done(s, id) || Cancel(id) in post || id !in s.lost
    decreases |post|
  {
    hide UpTo, Drained;
    if s.phase == Ended {
      EndedResolvesNothing(s, post, t, id);
      Places(s);
    } else {
      var m := Next(s, post[0]);
      assert post == [post[0]] + post[1..];
      StepKeepsInvariant(s, post[0]);
      DrainOnlyMoves(s);
      FailedEnd(m, post[1..], t, id);
      LostWereTaken(s);
      if id < |s.futures| {
        DrainExactly(s, id);
      }
    }
  }

  lemma DrainKeepsLength(s: State)
    ensures |Drained(s).futures| == |s.futures|
  {
    FailAllFails(s.futures, s.queue);
  }

  lemma LostWereTaken(s: State)
    requires Invariant(s)
    ensures forall id :: id in s.lost ==> id < |s.futures|
  {
    Places(s);
  }

  /** Once a stop has been seen, the rest is resolved only by an error on the way out. */
  lemma {:induction false} StoppedEnd(s: State, post: seq<Step>, t: State, id: nat)
    requires Invariant(s) && s.phase == Stopping && IsRun(s, post, t) && t.phase == Ended && id < |t.futures|
    ensures Done(t, id) <==> Done(s, id) || Cancel(id) in post || (ExitRaises in post && id !in s.lost)
    decreases |post|
  {
    hide UpTo, Drained;
    var m := Next(s, post[0]);
    assert post == [post[0]] + post[1..];
    StepKeepsInvariant(s, post[0]);
    LostWereTaken(s);
    DrainOnlyMoves(s);
    if m.phase == Ended {
      DrainKeepsLength(s);
      EndedResolvesNothing(m, post[1..], t, id);
      DrainExactly(s, id);
    } else {
      StoppedEnd(m, post[1..], t, id);
    }
  }

  lemma {:induction false} FailureEnds(s: State, steps: seq<Step>, t: State, id: nat)
    requires Invariant(s) && IsRun(s, steps, t) && Fails in steps && t.phase == Ended && id < |t.futures|
    ensures Done(t, id)
    decreases |steps|
  {
    hide UpTo;
    StepKeepsInvariant(s, steps[0]);
    if steps[0] == Fails {
      FailedEnd(Next(s, Fails), steps[1..], t, id);
    } else {
      FailureEnds(Next(s, steps[0]), steps[1..], t, id);
    }
  }

  /** Whatever else happens in a run, `close()` and cancellations included: when a failing request ends the
      session, every request accepted is resolved by the time it is no longer connected. */
  lemma FailureResolvesAll(steps: seq<Step>, t: State, id: nat)
    requires IsRun(INITIAL, steps, t) && Fails in steps && t.phase == Ended && id < |t.futures|
    ensures !t.connected && Done(t, id)
  {
    hide Next, UpTo;
    InitialHolds();
    RunKeepsInvariant(INITIAL, steps, t);
    FailureEnds(INITIAL, steps, t, id);
  }

  /** When the session task sees the stop in state `s`, a request is resolved by the end if and only if it
      was resolved then, its submitter gives up, or leaving the session raises and the request was not the
      one just dequeued. */
  lemma StopResolvesIff(steps: seq<Step>, s: State, post: seq<Step>, t: State, id: nat)
    requires IsRun(INITIAL, steps, s) && Enabled(s, SeeStop) && IsRun(Next(s, SeeStop), post, t)
    requires t.phase == Ended && id < |t.futures|
    ensures Done(t, id) <==> Done(s, id) || Cancel(id) in post || (ExitRaises in post && id !in InHand(s))
  {
    hide UpTo;
    InitialHolds();
    RunKeepsInvariant(INITIAL, steps, s);
    StepKeepsInvariant(s, SeeStop);
    StoppedEnd(Next(s, SeeStop), post, t, id);
  }

  /** When the wait is cancelled in state `s` and the queue getter left behind takes nothing, all is resolved
      but the request just dequeued, unless it was already or its submitter gives up. */
  lemma CancelledWaitResolvesIff(steps: seq<Step>, s: State, post: seq<Step>, t: State, id: nat)
    requires IsRun(INITIAL, steps, s) && Enabled(s, WaitCancelled) && IsRun(Next(s, WaitCancelled), post, t)
    requires t.phase == Ended && id < |t.futures| && GetterWakes !in post
    ensures Done(t, id) <==> Done(s, id) || Cancel(id) in post || id !in InHand(s)
  {
    hide UpTo;
    InitialHolds();
    RunKeepsInvariant(INITIAL, steps, s);
    StepKeepsInvariant(s, WaitCancelled);
    FailedEnd(Next(s, WaitCancelled), post, t, id);
  }

  /** When that getter wakes in state `s`, it takes the head of the queue with it, and only that. */
  lemma GetterLosesOne(steps: seq<Step>, s: State, post: seq<Step>, t: State, id: nat)
    requires IsRun(INITIAL, steps, s) && Enabled(s, GetterWakes) && IsRun(Next(s, GetterWakes), post, t)
    requires t.phase == Ended && id < |t.futures|
    ensures Done(t, id) <==> Done(s, id) || Cancel(id) in post || id != s.queue[0]
  {
    hide UpTo;
    InitialHolds();
    RunKeepsInvariant(INITIAL, steps, s);
    StepKeepsInvariant(s, GetterWakes);
    FailedEnd(Next(s, GetterWakes), post, t, id);
  }

  predicate Ending(step: Step) { step.ConnectFails? || step.Fails? || step.SeeStop? || step.WaitCancelled? }

  lemma {:induction false} EndingHappens(s: State, steps: seq<Step>, t: State) returns (step: Step)
    requires PumpActive(s) && IsRun(s, steps, t) && t.phase == Ended
    ensures step in steps && Ending(step)
    decreases |steps|
  {
    if Ending(steps[0]) {
      step := steps[0];
    } else {
      step := EndingHappens(Next(s, steps[0]), steps[1..], t);
    }
  }

  /** A session that has ended failed to connect or ended in one of the three ways above, and only a stop
      without a failure leaves anything in the queue. */
  lemma EveryEnding(steps: seq<Step>, t: State)
    requires IsRun(INITIAL, steps, t) && t.phase == Ended
    ensures exists step :: step in steps && Ending(step)
    ensures t.queue != [] ==> t.stop && !t.failed
  {
    hide Next, UpTo;
    InitialHolds();
    RunKeepsInvariant(INITIAL, steps, t);
    var step := EndingHappens(INITIAL, steps, t);
  }

  // ---- requests nobody answers ---------------------------------------------------------------

  /** A clean stop strands what is queued: submitted and then stopped before it is taken, a request is never
      answered. */
  lemma CleanStopStrandsQueued()
    ensures var steps := [Connected, Submit, Close, SeeStop, Finish];
            exists t :: IsRun(INITIAL, steps, t) && t.phase == Ended && !t.connected && t.queue == [0] && !Done(t, 0)
  {
    var s1 := Next(INITIAL, Connected);
    var s2 := Next(s1, Submit);
    var s3 := Next(s2, Close);
    var s4 := Next(s3, SeeStop);
    var t := Next(s4, Finish);
    RunFive(Connected, Submit, Close, SeeStop, Finish, s1, s2, s3, s4, t);
  }

  /** And it drops a request it has just dequeued when the stop event is seen in the same turn. */
  lemma CleanStopDropsDequeued()
    ensures var steps := [Connected, Submit, Dequeue, Close, SeeStop];
            exists t :: IsRun(INITIAL, steps, t) && t.phase == Stopping && t.lost == {0} && t.queue == [] && !Done(t, 0)
  {
    var s1 := Next(INITIAL, Connected);
    var s2 := Next(s1, Submit);
    var s3 := Next(s2, Dequeue);
    var s4 := Next(s3, Close);
    var t := Next(s4, SeeStop);
    RunFive(Connected, Submit, Dequeue, Close, SeeStop, s1, s2, s3, s4, t);
  }

  /** And a request is lost to the getter that a cancelled wait leaves behind. */
  lemma StrayGetterLosesARequest()
    ensures var steps := [Connected, WaitCancelled, Submit, GetterWakes, Drain];
            exists t :: IsRun(INITIAL, steps, t) && t.lost == {0} && t.queue == [] && t.futures == [Pending]
  {
    var s1 := Next(INITIAL, Connected);
    var s2 := Next(s1, WaitCancelled);
    var s3 := Next(s2, Submit);
    var s4 := Next(s3, GetterWakes);
    var t := Next(s4, Drain);
    RunFive(Connected, WaitCancelled, Submit, GetterWakes, Drain, s1, s2, s3, s4, t);
  }

  lemma RunFive(a: Step, b: Step, c: Step, d: Step, e: Step, s1: State, s2: State, s3: State, s4: State, t: State)
    requires Enabled(INITIAL, a) && s1 == Next(INITIAL, a)
    requires Enabled(s1, b) && s2 == Next(s1, b)
    requires Enabled(s2, c) && s3 == Next(s2, c)
    requires Enabled(s3, d) && s4 == Next(s3, d)
    requires Enabled(s4, e) && t == Next(s4, e)
    ensures IsRun(INITIAL, [a, b, c, d, e], t)
  {
    hide Next, Enabled;
    assert [a, b, c, d, e][1..] == [b, c, d, e];
    assert [b, c, d, e][1..] == [c, d, e];
    assert [c, d, e][1..] == [d, e];
    assert [d, e][1..] == [e];
    assert IsRun(t, [], t);
    assert IsRun(s4, [e], t);
    assert IsRun(s3, [d, e], t);
    assert IsRun(s2, [c, d, e], t);
    assert IsRun(s1, [b, c, d, e], t);
  }
}

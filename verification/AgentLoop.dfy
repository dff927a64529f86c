/** The AI tool-use loop: rounds of one model call each, with tool calls answered in between.

    The model, the clock and the tool handlers are arbitrary: `rounds[k]` is what the `k`-th model call
    does, `clock[k]` the time read before it, and `answers(k, i)` what the handler of the `i`-th tool call of
    round `k` does. */
module AgentLoop {
  import opened Wrappers

  datatype StopReason = EndTurn | ToolUse | MaxTokens | OtherReason

  datatype ToolCall = ToolCall(id: string, name: string)

  datatype ToolResult = ToolResult(callId: string, content: string, isError: bool)

  datatype Message =
    | Assistant(content: string, calls: seq<ToolCall>)
    | ToolResults(results: seq<ToolResult>)
    | Given(content: string)

  datatype Usage = Usage(input: nat, output: nat)

  datatype Response = Response(content: string, calls: seq<ToolCall>, stop: StopReason, usage: Option<Usage>)

  /** What one model call does. */
  datatype Round = Raises | NoMessage | Completes(response: Response)

  /** A tool handler returns a text, or raises an exception that is shown as one. */
  datatype Answer = Text(content: string) | Throws(shown: string)

  type Answers = (nat, nat) -> Answer

  datatype LoopStop = Ended | RoundsUp | WallClock | TokenBudget | OutputCap | Failed

  datatype LoopResult = LoopResult(
    finalMessage: Message,
    history: seq<Message>,
    stop: LoopStop,
    roundsUsed: int,
    tokensIn: nat,
    tokensOut: nat)

  // ---- tool calls ----------------------------------------------------------------------------

  function InvokeOne(call: ToolCall, tools: set<string>, answer: Answer): ToolResult {
    if call.name !in tools then ToolResult(call.id, "tool not found: " + call.name, true)
    else
      match answer
      case Text(content) => ToolResult(call.id, content, false)
      case Throws(shown) => ToolResult(call.id, "tool failed: " + shown, true)
  }

  /** One result per call, in the order of the calls: each carries its call's id, and the handler's text unless
      there is no such tool or the handler raised, which is an error that says so. */
  ghost predicate AnswersTo(results: seq<ToolResult>, calls: seq<ToolCall>, tools: set<string>, answers: Answers,
                            k: nat)
  {
    && |results| == |calls|
    && forall i :: 0 <= i < |calls| ==>
         && results[i].callId == calls[i].id
         && (results[i].isError <==> calls[i].name !in tools || answers(k, i).Throws?)
         && (!results[i].isError ==> Text(results[i].content) == answers(k, i))
         && (calls[i].name !in tools ==> results[i].content == "tool not found: " + calls[i].name)
         && (calls[i].name in tools && answers(k, i).Throws? ==>
               results[i].content == "tool failed: " + answers(k, i).shown)
  }

  function Results(calls: seq<ToolCall>, tools: set<string>, answers: Answers, k: nat): (results: seq<ToolResult>)
    ensures |results| == |calls|
    ensures forall i :: 0 <= i < |calls| ==> results[i] == InvokeOne(calls[i], tools, answers(k, i))
  {
    seq(|calls|, i requires 0 <= i < |calls| => InvokeOne(calls[i], tools, answers(k, i)))
  }

  lemma ResultsAnswer(calls: seq<ToolCall>, tools: set<string>, answers: Answers, k: nat)
    ensures AnswersTo(Results(calls, tools, answers, k), calls, tools, answers, k)
  {
  }

  method ExecuteSequential(calls: seq<ToolCall>, tools: set<string>, answers: Answers, k: nat)
    returns (results: seq<ToolResult>)
    ensures results == Results(calls, tools, answers, k) && AnswersTo(results, calls, tools, answers, k)
  {
    results := [];
    for i := 0 to |calls|
      invariant results == Results(calls, tools, answers, k)[..i]
    {
      results := results + [InvokeOne(calls[i], tools, answers(k, i))];
    }
    ResultsAnswer(calls, tools, answers, k);
  }

  /** The invocations complete in any order; the results still line up with the calls. */
  method ExecuteParallel(calls: seq<ToolCall>, tools: set<string>, answers: Answers, k: nat)
    returns (results: seq<ToolResult>)
    ensures results == Results(calls, tools, answers, k) && AnswersTo(results, calls, tools, answers, k)
  {
    var completed := map[];
    var running: set<nat> := {};
    for i := 0 to |calls|
      invariant forall j: nat :: j in running <==> j < i
    {
      running := running + {i};
    }
    while running != {}
      invariant forall i :: i in running ==> 0 <= i < |calls|
      invariant forall i: nat :: i < |calls| && i !in running ==>
                  i in completed && completed[i] == InvokeOne(calls[i], tools, answers(k, i))
      decreases running
    {
      var i :| i in running;
      running := running - {i};
      completed := completed[i := InvokeOne(calls[i], tools, answers(k, i))];
    }
    results := seq(|calls|, i requires 0 <= i < |calls| => completed[i]);
    ResultsAnswer(calls, tools, answers, k);
  }

  method Execute(c: Config, calls: seq<ToolCall>, answers: Answers, k: nat) returns (results: seq<ToolResult>)
    ensures results == Results(calls, c.tools, answers, k)
  {
    if c.parallel && |calls| > 1 {
      results := ExecuteParallel(calls, c.tools, answers, k);
    } else {
      results := ExecuteSequential(calls, c.tools, answers, k);
    }
  }

  // ---- what a number of rounds amounts to ----------------------------------------------------

  datatype Config = Config(
    tools: set<string>,
    maxRounds: int,
    deadline: Option<int>,
    maxTokens: Option<int>,
    parallel: bool)

  function MessageOf(response: Response): Message { Assistant(response.content, response.calls) }

  /** The round asked for tools and named some, so it is answered and the loop goes on. */
  predicate Answered(response: Response) { response.stop == ToolUse && response.calls != [] }

  predicate AllComplete(rounds: seq<Round>, n: nat) {
    n <= |rounds| && forall k :: 0 <= k < n ==> rounds[k].Completes?
  }

  function InputOf(response: Response): nat { if response.usage.Some? then response.usage.value.input else 0 }

  function OutputOf(response: Response): nat { if response.usage.Some? then response.usage.value.output else 0 }

  /** The tokens of the first `n` rounds, in and out. */
  function TotalIn(rounds: seq<Round>, n: nat): nat
    requires AllComplete(rounds, n)
  {
    if n == 0 then 0 else TotalIn(rounds, n - 1) + InputOf(rounds[n - 1].response)
  }

  function TotalOut(rounds: seq<Round>, n: nat): nat
    requires AllComplete(rounds, n)
  {
    if n == 0 then 0 else TotalOut(rounds, n - 1) + OutputOf(rounds[n - 1].response)
  }

  /** What the first `n` rounds add to the history. */
  function Transcript(c: Config, rounds: seq<Round>, answers: Answers, n: nat): seq<Message>
    requires AllComplete(rounds, n)
  {
    if n == 0 then []
    else
      var response := rounds[n - 1].response;
      Transcript(c, rounds, answers, n - 1) + [MessageOf(response)]
      + (if Answered(response) then [ToolResults(Results(response.calls, c.tools, answers, n - 1))] else [])
  }

  function FinalOf(rounds: seq<Round>, n: nat): Message
    requires AllComplete(rounds, n)
  {
    if n == 0 then Assistant("", []) else MessageOf(rounds[n - 1].response)
  }

  predicate TimeUp(c: Config, clock: seq<int>, k: nat)
    requires k < |clock|
  {
    c.deadline.Some? && clock[k] >= c.deadline.value
  }

  predicate BudgetSpent(c: Config, rounds: seq<Round>, n: nat)
    requires AllComplete(rounds, n)
  {
    c.maxTokens.Some? && TotalIn(rounds, n) + TotalOut(rounds, n) >= c.maxTokens.value
  }

  /** Round `k` was entered: neither the deadline nor the token budget had been reached before it. */
  predicate Entered(c: Config, rounds: seq<Round>, clock: seq<int>, k: nat)
    requires k < |clock| && AllComplete(rounds, k)
  {
    k < c.maxRounds && !TimeUp(c, clock, k) && !BudgetSpent(c, rounds, k)
  }

  /** Why the loop stopped after `n` completed rounds, having entered `used`. */
  predicate StoppedFor(c: Config, rounds: seq<Round>, clock: seq<int>, n: nat, used: int, stop: LoopStop)
    requires AllComplete(rounds, n) && n <= |clock| && (n < c.maxRounds ==> n < |clock| && n < |rounds|)
  {
    var last := if n == 0 then None else Some(rounds[n - 1].response);
    match stop
    case Ended => last.Some? && last.value.stop == EndTurn && used == n
    case OutputCap => last.Some? && last.value.stop == MaxTokens && used == n
    case Failed =>
      || (last.Some? && last.value.stop == ToolUse && last.value.calls == [] && used == n)
      || ((last.Some? ==> Answered(last.value)) && n < c.maxRounds && Entered(c, rounds, clock, n)
          && !rounds[n].Completes? && used == n + 1)
    case WallClock => (last.Some? ==> Answered(last.value)) && n < c.maxRounds && TimeUp(c, clock, n) && used == n
    case TokenBudget =>
      && (last.Some? ==> Answered(last.value)) && n < c.maxRounds
      && !TimeUp(c, clock, n) && BudgetSpent(c, rounds, n) && used == n
    case RoundsUp =>
      && used == n
      && ((last.Some? && last.value.stop == OtherReason)
          || ((last.Some? ==> Answered(last.value)) && n >= c.maxRounds))
  }

  lemma NoRounds(c: Config, rounds: seq<Round>, answers: Answers)
    ensures Transcript(c, rounds, answers, 0) == [] && TotalIn(rounds, 0) == 0 && TotalOut(rounds, 0) == 0
  {
  }

  /** The tokens of one response, in and out: none when no usage is reported. */
  ghost predicate Uses(response: Response, tokensIn: nat, tokensOut: nat) {
    match response.usage
    case None => tokensIn == 0 && tokensOut == 0
    case Some(usage) => tokensIn == usage.input && tokensOut == usage.output
  }

  /** Every completed round adds its usage to the totals. */
  lemma TotalsAdd(rounds: seq<Round>, n: nat, tokensIn: nat, tokensOut: nat)
    requires AllComplete(rounds, n + 1) && Uses(rounds[n].response, tokensIn, tokensOut)
    ensures TotalIn(rounds, 0) == 0 && TotalOut(rounds, 0) == 0
    ensures TotalIn(rounds, n + 1) == TotalIn(rounds, n) + tokensIn
    ensures TotalOut(rounds, n + 1) == TotalOut(rounds, n) + tokensOut
  {
  }

  /** One more completed round. */
  lemma OneMoreRound(c: Config, rounds: seq<Round>, answers: Answers, n: nat)
    requires AllComplete(rounds, n) && n < |rounds| && rounds[n].Completes?
    ensures AllComplete(rounds, n + 1)
    ensures var response := rounds[n].response;
            && TotalIn(rounds, n + 1) == TotalIn(rounds, n) + InputOf(response)
            && TotalOut(rounds, n + 1) == TotalOut(rounds, n) + OutputOf(response)
            && Transcript(c, rounds, answers, n + 1) == Transcript(c, rounds, answers, n) + [MessageOf(response)]
               + (if Answered(response) then [ToolResults(Results(response.calls, c.tools, answers, n))] else [])
  {
  }

  /** Drive the loop. `n` is the number of rounds that produced a message. */
  method RunLoop(c: Config, messages: seq<Message>, rounds: seq<Round>, clock: seq<int>, answers: Answers)
    returns (r: LoopResult, ghost n: nat)
    requires c.maxRounds <= |rounds| && c.maxRounds <= |clock|
    ensures n <= |clock| && AllComplete(rounds, n) && (n == 0 || n <= c.maxRounds)
    ensures r.history == messages + Transcript(c, rounds, answers, n)
    ensures r.tokensIn == TotalIn(rounds, n) && r.tokensOut == TotalOut(rounds, n)
    ensures r.finalMessage == FinalOf(rounds, n)
    ensures forall k :: 0 <= k < n ==> Entered(c, rounds, clock, k)
    ensures forall k :: 0 <= k < n - 1 ==> Answered(rounds[k].response)
    ensures StoppedFor(c, rounds, clock, n, r.roundsUsed, r.stop)
    ensures r.roundsUsed <= (if c.maxRounds < 0 then 0 else c.maxRounds)
    ensures c.deadline.Some? ==> forall k :: 0 <= k < n ==> clock[k] < c.deadline.value
    ensures n > 0 && c.maxTokens.Some? ==>
              r.tokensIn + r.tokensOut < c.maxTokens.value + match rounds[n - 1].response.usage
                                                             case None => 0
                                                             case Some(usage) => usage.input + usage.output
  {
    hide Transcript, TotalIn, TotalOut, Results, AnswersTo;
    NoRounds(c, rounds, answers);
    var history := messages;
    var tokensIn, tokensOut := 0, 0;
    var finalMessage := Assistant("", []);
    n := 0;
    var k := 0;
    while k < c.maxRounds
      invariant 0 <= k && n == k && (k == 0 || k <= c.maxRounds)
      invariant AllComplete(rounds, n)
      invariant history == messages + Transcript(c, rounds, answers, n)
      invariant tokensIn == TotalIn(rounds, n) && tokensOut == TotalOut(rounds, n)
      invariant finalMessage == FinalOf(rounds, n)
      invariant forall j :: 0 <= j < n ==> Entered(c, rounds, clock, j)
      invariant c.deadline.Some? ==> forall j :: 0 <= j < n ==> clock[j] < c.deadline.value
      invariant forall j :: 0 <= j < n ==> Answered(rounds[j].response)
      invariant n > 0 && c.maxTokens.Some? ==>
                  tokensIn + tokensOut
                  < c.maxTokens.value + InputOf(rounds[n - 1].response) + OutputOf(rounds[n - 1].response)
    {
      if c.deadline.Some? && clock[k] >= c.deadline.value {
        return LoopResult(finalMessage, history, WallClock, k, tokensIn, tokensOut), n;
      }
      if c.maxTokens.Some? && tokensIn + tokensOut >= c.maxTokens.value {
        return LoopResult(finalMessage, history, TokenBudget, k, tokensIn, tokensOut), n;
      }
      if !rounds[k].Completes? {
        return LoopResult(finalMessage, history, Failed, k + 1, tokensIn, tokensOut), n;
      }
      var response := rounds[k].response;
      OneMoreRound(c, rounds, answers, n);
      tokensIn := tokensIn + InputOf(response);
      tokensOut := tokensOut + OutputOf(response);
      finalMessage := MessageOf(response);
      history := history + [finalMessage];
      n := n + 1;
      if response.stop == EndTurn {
        return LoopResult(finalMessage, history, Ended, k + 1, tokensIn, tokensOut), n;
      }
      if response.stop == MaxTokens {
        return LoopResult(finalMessage, history, OutputCap, k + 1, tokensIn, tokensOut), n;
      }
      if response.stop != ToolUse {
        return LoopResult(finalMessage, history, RoundsUp, k + 1, tokensIn, tokensOut), n;
      }
      if response.calls == [] {
        return LoopResult(finalMessage, history, Failed, k + 1, tokensIn, tokensOut), n;
      }
      var results := Execute(c, response.calls, answers, k);
      history := history + [ToolResults(results)];
      k := k + 1;
    }
    return LoopResult(finalMessage, history, RoundsUp, k, tokensIn, tokensOut), n;
  }

  // ---- what follows --------------------------------------------------------------------------

  /** What is added to the history: for every completed round the assistant's message, followed by the results
      of its tool calls if it asked for some and so did every round before. */
  lemma {:induction false} TranscriptMeans(c: Config, rounds: seq<Round>, answers: Answers, n: nat, k: nat)
    requires AllComplete(rounds, n) && k < n
    requires forall j :: 0 <= j < n - 1 ==> rounds[j].response.stop == ToolUse && rounds[j].response.calls != []
    ensures var t, response := Transcript(c, rounds, answers, n), rounds[k].response;
            && 2 * k < |t| && t[2 * k] == Assistant(response.content, response.calls)
            && (if response.stop == ToolUse && response.calls != []
                then 2 * k + 1 < |t| && t[2 * k + 1].ToolResults?
                     && AnswersTo(t[2 * k + 1].results, response.calls, c.tools, answers, k)
                else |t| == 2 * n - 1)
            && (k == n - 1 ==> |t| <= 2 * n)
    decreases n
  {
    hide Results, AnswersTo;
    var before := Transcript(c, rounds, answers, n - 1);
    if n == 1 {
    } else {
      TranscriptMeans(c, rounds, answers, n - 1, n - 2);
      if k < n - 1 { TranscriptMeans(c, rounds, answers, n - 1, k); }
    }
    ResultsAnswer(rounds[k].response.calls, c.tools, answers, k);
  }

  /** The message the loop ends with is the last completed round's, or an empty one. */
  lemma FinalMeans(rounds: seq<Round>, n: nat)
    requires AllComplete(rounds, n)
    ensures n == 0 ==> FinalOf(rounds, n) == Assistant("", [])
    ensures n > 0 ==> FinalOf(rounds, n) == Assistant(rounds[n - 1].response.content, rounds[n - 1].response.calls)
  {
  }

  /** Each way of stopping rules out the others, so that it is given under exactly its condition. */
  lemma StopIsUnique(c: Config, rounds: seq<Round>, clock: seq<int>, n: nat, used: int, stop: LoopStop, used': int,
                     stop': LoopStop)
    requires AllComplete(rounds, n) && n <= |clock| && (n < c.maxRounds ==> n < |clock| && n < |rounds|)
    requires StoppedFor(c, rounds, clock, n, used, stop) && StoppedFor(c, rounds, clock, n, used', stop')
    ensures stop == stop' && used == used'
  {
    hide BudgetSpent;
  }

  /** When the model has been asked for nothing more: the rounds are up, the deadline has come, or the budget
      is spent; and when it was asked in vain. */
  lemma StopMeans(c: Config, rounds: seq<Round>, clock: seq<int>, n: nat, used: int, stop: LoopStop)
    requires AllComplete(rounds, n) && n <= |clock| && (n < c.maxRounds ==> n < |clock| && n < |rounds|)
    requires StoppedFor(c, rounds, clock, n, used, stop)
    ensures stop == Ended <==> n > 0 && rounds[n - 1].response.stop == EndTurn
    ensures stop == OutputCap <==> n > 0 && rounds[n - 1].response.stop == MaxTokens
    ensures stop == WallClock ==> n < c.maxRounds && c.deadline.Some? && clock[n] >= c.deadline.value
    ensures stop == TokenBudget ==>
              && n < c.maxRounds && c.maxTokens.Some? && TotalIn(rounds, n) + TotalOut(rounds, n) >= c.maxTokens.value
              && (c.deadline.Some? ==> clock[n] < c.deadline.value)
    ensures stop == Failed ==>
              || (n > 0 && rounds[n - 1].response.stop == ToolUse && rounds[n - 1].response.calls == [])
              || (n < c.maxRounds && !rounds[n].Completes?)
    ensures stop == RoundsUp ==> (n > 0 && rounds[n - 1].response.stop == OtherReason) || n >= c.maxRounds
    ensures used == n + 1 <==>
      && stop == Failed && n < c.maxRounds && !rounds[n].Completes?
      && (n > 0 ==> rounds[n - 1].response.stop == ToolUse && rounds[n - 1].response.calls != [])
    ensures used == n || used == n + 1
  {
  }
}

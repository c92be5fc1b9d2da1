/**
 The benchmark's agent loop (`runCell`, `computeCosts`, scripts/set-bench/run-cell.ts).

 The model provider is an arbitrary sequence of replies, the clock an arbitrary
 sequence of readings, and a tool's answer may depend on all earlier tool calls.
 A tool and the pass check may also throw.
 */
module AgentLoop {
  import T = Text
  import opened Wrappers

  // ---------- Data ----------

  type Json = string

  const EMPTY_OBJECT: Json := "{}"

  /** A content block as the provider sends it; any field may be missing. */
  datatype RawBlock =
    | RawText(text: Option<string>)
    | RawToolUse(id: Option<string>, name: Option<string>, input: Option<Json>)
    | RawOther

  datatype Usage = Usage(input: Option<nat>, output: Option<nat>, cacheRead: Option<nat>, cacheCreation: Option<nat>)

  datatype Response = Response(content: seq<RawBlock>, stopReason: string, usage: Option<Usage>)

  datatype Reply = Answer(response: Response) | Failure(message: string)

  datatype Block = Text(text: string) | ToolUse(id: string, name: string, input: Json)

  datatype ToolResult = ToolResult(toolUseId: string, content: string)

  datatype Message = Prompt(text: string) | Assistant(blocks: seq<Block>) | Results(results: seq<ToolResult>)

  datatype ToolCall = ToolCall(name: string, input: Option<Json>, output: string)

  /** Dispatching a tool: null for an unknown one; the mock state is what the earlier calls made of it. */
  type Tools = (seq<ToolCall>, string, Option<Json>) -> Option<string>

  /** Whether dispatching a tool throws instead, and with which message. */
  type Faults = (seq<ToolCall>, string, Option<Json>) -> Option<string>

  function GetOr<T>(o: Option<T>, default: T): T {
    if o.Some? then o.value else default
  }

  // ---------- The retry loop ----------

  datatype Thrown = ProviderError(message: string) | NoFinalMessage

  /** Which error messages mean a rate limit, and which a rejected temperature parameter. */
  datatype Errors = Errors(isRateLimit: string -> bool, rejectsTemperature: string -> bool)

  const MAX_ATTEMPTS: nat := 4

  /** The outcome of calling the model from reply `k` on, and the number of the next reply. */
  function Retry(provider: nat -> Reply, errors: Errors, k: nat, attempt: nat, dropTemperature: bool): (Result<Response, Thrown>, nat)
    requires attempt < MAX_ATTEMPTS
    decreases MAX_ATTEMPTS - attempt, !dropTemperature
  {
    match provider(k)
    case Answer(r) => (Ok(r), k + 1)
    case Failure(m) =>
      if !dropTemperature && errors.rejectsTemperature(m) then Retry(provider, errors, k + 1, attempt, true)
      else if !errors.isRateLimit(m) || attempt == MAX_ATTEMPTS - 1 then (Err(ProviderError(m)), k + 1)
      else Retry(provider, errors, k + 1, attempt + 1, dropTemperature)
  }

  /** Reply `i` is a failure that rejects the temperature parameter. */
  ghost predicate Rejects(provider: nat -> Reply, errors: Errors, i: nat) {
    provider(i).Failure? && errors.rejectsTemperature(provider(i).message)
  }

  /** The temperature has been dropped by reply `k`. */
  ghost predicate Dropped(provider: nat -> Reply, errors: Errors, first: nat, k: nat) {
    exists i: nat :: first <= i < k && Rejects(provider, errors, i)
  }

  /** The attempts used up before reply `k`: one for each reply but the one that dropped the temperature. */
  ghost function Attempts(provider: nat -> Reply, errors: Errors, first: nat, k: nat): int {
    k - first - if Dropped(provider, errors, first, k) then 1 else 0
  }

  /**
   Reply `k` is retried: it is the first failure to reject the temperature, or it is a rate limit and
   fewer than three attempts have been used.
   */
  ghost predicate IsRetried(provider: nat -> Reply, errors: Errors, first: nat, k: nat) {
    && provider(k).Failure?
    && ((Rejects(provider, errors, k) && !Dropped(provider, errors, first, k))
        || (errors.isRateLimit(provider(k).message) && Attempts(provider, errors, first, k) < MAX_ATTEMPTS - 1))
  }

  lemma OneReply(provider: nat -> Reply, errors: Errors, first: nat, k: nat)
    requires first <= k
    ensures Dropped(provider, errors, first, k + 1) <==> Dropped(provider, errors, first, k) || Rejects(provider, errors, k)
    ensures Rejects(provider, errors, k) <==> provider(k).Failure? && errors.rejectsTemperature(provider(k).message)
    ensures !Dropped(provider, errors, first, first) && Attempts(provider, errors, first, first) == 0
  {
  }

  method CallModel(provider: nat -> Reply, errors: Errors, first: nat)
    returns (result: Result<Response, Thrown>, next: nat, delays: seq<nat>)
    ensures (result, next) == Retry(provider, errors, first, 0, false)
    ensures next > first && 0 <= Attempts(provider, errors, first, next - 1) < MAX_ATTEMPTS
    ensures delays == [1500, 4000, 10000][..Attempts(provider, errors, first, next - 1)]
  {
    hide Rejects, Dropped;
    var msg: Option<Response> := None;
    var attempt, dropTemperature := 0, false;
    next, delays := first, [];
    OneReply(provider, errors, first, first);
    while attempt < MAX_ATTEMPTS
      invariant attempt < MAX_ATTEMPTS && first <= next
      invariant dropTemperature == Dropped(provider, errors, first, next) && attempt == Attempts(provider, errors, first, next)
      invariant msg.None? && Retry(provider, errors, next, attempt, dropTemperature) == Retry(provider, errors, first, 0, false)
      invariant delays == [1500, 4000, 10000][..attempt]
      decreases MAX_ATTEMPTS - attempt, !dropTemperature
    {
      var reply := provider(next);
      OneReply(provider, errors, first, next);
      next := next + 1;
      if reply.Answer? {
        msg := Some(reply.response);
        break;
      }
      var m := reply.message;
      if !dropTemperature && errors.rejectsTemperature(m) {
        dropTemperature := true;
        continue;
      }
      if !errors.isRateLimit(m) || attempt == MAX_ATTEMPTS - 1 {
        return Err(ProviderError(m)), next, delays;
      }
      attempt := attempt + 1;
      delays := delays + [[1500, 4000, 10000][attempt - 1]];
    }
    if msg.None? {
      return Err(NoFinalMessage), next, delays;
    }
    return Ok(msg.value), next, delays;
  }

  /**
   What the retry loop does, exactly: it goes on through the replies that are retried, stops at the
   first that is not, and ends with its answer or its error.
   */
  lemma {:induction false} RetryStopsRight(provider: nat -> Reply, errors: Errors, first: nat, k: nat)
    requires first <= k && 0 <= Attempts(provider, errors, first, k) < MAX_ATTEMPTS
    requires forall j :: first <= j < k ==> IsRetried(provider, errors, first, j)
    ensures var (result, next) := Retry(provider, errors, k, Attempts(provider, errors, first, k), Dropped(provider, errors, first, k));
      && k < next <= k + MAX_ATTEMPTS - Attempts(provider, errors, first, k) + (if Dropped(provider, errors, first, k) then 0 else 1)
      && (forall j :: first <= j < next - 1 ==> IsRetried(provider, errors, first, j))
      && !IsRetried(provider, errors, first, next - 1)
      && 0 <= Attempts(provider, errors, first, next - 1) < MAX_ATTEMPTS
      && result == match provider(next - 1) case Answer(r) => Ok(r) case Failure(m) => Err(ProviderError(m))
    decreases MAX_ATTEMPTS - Attempts(provider, errors, first, k), !Dropped(provider, errors, first, k)
  {
    hide Dropped, Rejects;
    OneReply(provider, errors, first, k);
    if IsRetried(provider, errors, first, k) {
      RetryStopsRight(provider, errors, first, k + 1);
    }
  }

  ghost predicate IsRateLimited(provider: nat -> Reply, errors: Errors, j: nat) {
    provider(j).Failure? && errors.isRateLimit(provider(j).message)
  }

  ghost predicate DropsTemperature(provider: nat -> Reply, errors: Errors, first: nat, j: nat) {
    Rejects(provider, errors, j) && !Dropped(provider, errors, first, j)
  }

  /** Of two replies that are retried one is a rate limit: the temperature is dropped once. */
  lemma OneDrop(provider: nat -> Reply, errors: Errors, first: nat, i: nat, j: nat)
    requires first <= i && IsRetried(provider, errors, first, i) && IsRetried(provider, errors, first, j)
    ensures IsRateLimited(provider, errors, i) || DropsTemperature(provider, errors, first, i)
    ensures i < j ==> IsRateLimited(provider, errors, i) || IsRateLimited(provider, errors, j)
  {
  }

  /**
   At most four attempts and one temperature drop: of the replies that are retried at most one is no
   rate limit, and besides the one that dropped the temperature there are at most three.  The loop
   never ends without a message or a provider error, and gives up only on what is no rate limit or
   after three attempts.
   */
  lemma RetryBounds(provider: nat -> Reply, errors: Errors, first: nat)
    ensures var (result, next) := Retry(provider, errors, first, 0, false);
      && first < next <= first + MAX_ATTEMPTS + 1
      && 0 <= Attempts(provider, errors, first, next - 1) <= 3
      && (forall j :: first <= j < next - 1 ==>
            IsRateLimited(provider, errors, j) || DropsTemperature(provider, errors, first, j))
      && (forall i, j :: first <= i < j < next - 1 ==>
            IsRateLimited(provider, errors, i) || IsRateLimited(provider, errors, j))
      && result != Err(NoFinalMessage)
      && (result.Ok? ==> provider(next - 1) == Answer(result.value))
      && (result.Err? ==> provider(next - 1) == Failure(result.error.message))
      && (result.Err? ==> !errors.isRateLimit(result.error.message) || Attempts(provider, errors, first, next - 1) == 3)
  {
    hide Retry, IsRateLimited, DropsTemperature, Dropped;
    OneReply(provider, errors, first, first);
    RetryStopsRight(provider, errors, first, first);
    var next := Retry(provider, errors, first, 0, false).1;
    forall i, j | first <= i <= j < next - 1
      ensures IsRateLimited(provider, errors, i) || DropsTemperature(provider, errors, first, i)
      ensures i < j ==> IsRateLimited(provider, errors, i) || IsRateLimited(provider, errors, j)
    {
      OneDrop(provider, errors, first, i, j);
    }
  }

  // ---------- What a response contributes ----------

  /** A block as it is sent back: an unknown kind becomes empty text. */
  function BlockOf(raw: RawBlock): Block {
    match raw
    case RawText(t) => Text(GetOr(t, ""))
    case RawToolUse(id, name, input) => ToolUse(GetOr(id, ""), GetOr(name, ""), GetOr(input, EMPTY_OBJECT))
    case RawOther => Text("")
  }

  /** The assistant message: all blocks, empty text dropped. */
  function BlocksOf(content: seq<RawBlock>): seq<Block> {
    if content == [] then []
    else (if BlockOf(content[0]) == Text("") then [] else [BlockOf(content[0])]) + BlocksOf(content[1..])
  }

  function ToolUsesOf(content: seq<RawBlock>): (uses: seq<RawBlock>)
    ensures forall u :: u in uses ==> u.RawToolUse?
  {
    if content == [] then []
    else (if content[0].RawToolUse? then [content[0]] else []) + ToolUsesOf(content[1..])
  }

  function TextsOf(content: seq<RawBlock>): seq<string> {
    if content == [] then []
    else
      (if content[0].RawText? && GetOr(content[0].text, "") != "" then [GetOr(content[0].text, "")] else [])
      + TextsOf(content[1..])
  }

  function FinalTextOf(content: seq<RawBlock>): string { T.JoinLines(TextsOf(content)) }

  function CallOf(tools: Tools, before: seq<ToolCall>, use: RawBlock): ToolCall
    requires use.RawToolUse?
  {
    var name := GetOr(use.name, "");
    ToolCall(name, use.input, GetOr(tools(before, name, use.input), "ERROR: unknown tool " + GetOr(use.name, "undefined")))
  }

  /** The tool calls of one response, made one after the other. */
  function CallsOf(tools: Tools, before: seq<ToolCall>, uses: seq<RawBlock>): (calls: seq<ToolCall>)
    requires forall u :: u in uses ==> u.RawToolUse?
    ensures |calls| == |uses|
  {
    if uses == [] then []
    else
      var earlier := CallsOf(tools, before, uses[..|uses| - 1]);
      earlier + [CallOf(tools, before + earlier, uses[|uses| - 1])]
  }

  /** The first tool use of a response that throws, if any: its place and the message. */
  function FirstFault(tools: Tools, faults: Faults, before: seq<ToolCall>, uses: seq<RawBlock>): (fault: Option<(nat, string)>)
    requires forall u :: u in uses ==> u.RawToolUse?
    ensures fault.Some? ==> fault.value.0 < |uses|
  {
    if uses == [] then None
    else
      var n := |uses| - 1;
      var fault := FirstFault(tools, faults, before, uses[..n]);
      if fault.Some? then fault
      else
        var thrown := faults(before + CallsOf(tools, before, uses[..n]), GetOr(uses[n].name, ""), uses[n].input);
        if thrown.Some? then Some((n, thrown.value)) else None
  }

  lemma {:induction false} FaultStays(tools: Tools, faults: Faults, before: seq<ToolCall>, uses: seq<RawBlock>, k: nat)
    requires (forall u :: u in uses ==> u.RawToolUse?) && k <= |uses|
    requires FirstFault(tools, faults, before, uses[..k]).Some?
    ensures FirstFault(tools, faults, before, uses) == FirstFault(tools, faults, before, uses[..k])
  {
    if k < |uses| {
      assert uses[..|uses| - 1][..k] == uses[..k];
      FaultStays(tools, faults, before, uses[..|uses| - 1], k);
    } else {
      assert uses[..k] == uses;
    }
  }

  function ResultsOf(uses: seq<RawBlock>, calls: seq<ToolCall>): seq<ToolResult>
    requires |uses| == |calls| && forall u :: u in uses ==> u.RawToolUse?
  {
    seq(|uses|, i requires 0 <= i < |uses| => ToolResult(GetOr(uses[i].id, ""), calls[i].output))
  }

  // ---------- What these say, block by block ----------

  /** A response is taken block by block. */
  lemma {:induction false} ContentCons(b: RawBlock, rest: seq<RawBlock>)
    ensures BlocksOf([b] + rest) == BlocksOf([b]) + BlocksOf(rest) && BlocksOf([]) == []
    ensures ToolUsesOf([b] + rest) == ToolUsesOf([b]) + ToolUsesOf(rest) && ToolUsesOf([]) == []
    ensures TextsOf([b] + rest) == TextsOf([b]) + TextsOf(rest) && TextsOf([]) == []
  {
    assert ([b] + rest)[1..] == rest;
    OneBlock(b);
  }

  /**
   What one block contributes to the message sent back, to the tool uses and to the text: a tool use
   goes back with its fields, where missing ones are empty, text goes back unless it is empty, and
   anything else is dropped.
   */
  lemma BlockMeans(id: Option<string>, name: Option<string>, input: Option<Json>, text: Option<string>)
    ensures var sent := ToolUse(if id.Some? then id.value else "", if name.Some? then name.value else "", if input.Some? then input.value else "{}");
      && BlocksOf([RawToolUse(id, name, input)]) == [sent]
      && ToolUsesOf([RawToolUse(id, name, input)]) == [RawToolUse(id, name, input)]
      && TextsOf([RawToolUse(id, name, input)]) == []
    ensures ToolUsesOf([RawText(text)]) == []
    ensures text.Some? && text.value != "" ==> BlocksOf([RawText(text)]) == [Text(text.value)] && TextsOf([RawText(text)]) == [text.value]
    ensures text.None? || text.value == "" ==> BlocksOf([RawText(text)]) == [] && TextsOf([RawText(text)]) == []
    ensures BlocksOf([RawOther]) == [] && ToolUsesOf([RawOther]) == [] && TextsOf([RawOther]) == []
  {
    assert BlocksOf([]) == [] && ToolUsesOf([]) == [] && TextsOf([]) == [];
    OneBlock(RawToolUse(id, name, input));
    OneBlock(RawText(text));
    OneBlock(RawOther);
  }

  lemma OneBlock(b: RawBlock)
    ensures BlocksOf([b]) == if BlockOf(b) == Text("") then [] else [BlockOf(b)]
    ensures ToolUsesOf([b]) == if b.RawToolUse? then [b] else []
    ensures TextsOf([b]) == if b.RawText? && GetOr(b.text, "") != "" then [GetOr(b.text, "")] else []
  {
    assert [b][1..] == [];
  }

  /** The fault that ends a run is the first: no tool use before it threw. */
  lemma {:induction false} FaultIsFirst(tools: Tools, faults: Faults, before: seq<ToolCall>, uses: seq<RawBlock>)
    requires forall u :: u in uses ==> u.RawToolUse?
    ensures var fault := FirstFault(tools, faults, before, uses);
      && (forall i :: 0 <= i < (if fault.Some? then fault.value.0 else |uses|) ==> Throws(tools, faults, before, uses, i).None?)
      && (fault.Some? ==> Throws(tools, faults, before, uses, fault.value.0) == Some(fault.value.1))
  {
    if uses != [] {
      var n := |uses| - 1;
      FaultIsFirst(tools, faults, before, uses[..n]);
      forall i | 0 <= i < n ensures Throws(tools, faults, before, uses[..n], i) == Throws(tools, faults, before, uses, i) {
        assert uses[..n][..i] == uses[..i];
      }
    }
  }

  /** What dispatching tool use `i` throws, after the calls made for the ones before it. */
  ghost function Throws(tools: Tools, faults: Faults, before: seq<ToolCall>, uses: seq<RawBlock>, i: nat): Option<string>
    requires i < |uses| && forall u :: u in uses ==> u.RawToolUse?
  {
    faults(before + CallsOf(tools, before, uses[..i]), if uses[i].name.Some? then uses[i].name.value else "", uses[i].input)
  }

  // ---------- The conversation that a list of responses makes ----------

  /** All tool calls made for the responses, in order. */
  function Trace(tools: Tools, rs: seq<Response>): seq<ToolCall> {
    if rs == [] then []
    else
      var before := Trace(tools, rs[..|rs| - 1]);
      before + CallsOf(tools, before, ToolUsesOf(rs[|rs| - 1].content))
  }

  function Messages(tools: Tools, prompt: string, rs: seq<Response>): seq<Message> {
    if rs == [] then [Prompt(prompt)]
    else
      var before, last := rs[..|rs| - 1], rs[|rs| - 1].content;
      var uses := ToolUsesOf(last);
      Messages(tools, prompt, before) + [Assistant(BlocksOf(last))]
      + if uses == [] then [] else [Results(ResultsOf(uses, CallsOf(tools, Trace(tools, before), uses)))]
  }

  datatype Totals = Totals(tokensIn: nat, tokensOut: nat, cacheRead: nat, cacheCreation: nat)

  function TokensOf(r: Response): Totals {
    var u := GetOr(r.usage, Usage(None, None, None, None));
    Totals(GetOr(u.input, 0), GetOr(u.output, 0), GetOr(u.cacheRead, 0), GetOr(u.cacheCreation, 0))
  }

  function Add(a: Totals, b: Totals): Totals {
    Totals(a.tokensIn + b.tokensIn, a.tokensOut + b.tokensOut, a.cacheRead + b.cacheRead, a.cacheCreation + b.cacheCreation)
  }

  function TotalTokens(rs: seq<Response>): Totals {
    if rs == [] then Totals(0, 0, 0, 0) else Add(TotalTokens(rs[..|rs| - 1]), TokensOf(rs[|rs| - 1]))
  }

  // ---------- Costs ----------

  datatype Pricing = Pricing(inputPerMillion: real, outputPerMillion: real, cacheReadPerMillion: Option<real>, cacheWritePerMillion: Option<real>)

  datatype Costs = Costs(cold: real, warm: real)

  function Charge(tokens: nat, ratePerMillion: real): real {
    tokens as real / 1000000.0 * ratePerMillion
  }

  function ComputeCosts(p: Pricing, t: Totals): Costs {
    var readRate := GetOr(p.cacheReadPerMillion, p.inputPerMillion);
    var writeRate := GetOr(p.cacheWritePerMillion, p.inputPerMillion);
    Costs(Charge(t.tokensIn + t.cacheRead + t.cacheCreation, p.inputPerMillion) + Charge(t.tokensOut, p.outputPerMillion),
          Charge(t.tokensIn, p.inputPerMillion) + Charge(t.cacheRead, readRate) + Charge(t.cacheCreation, writeRate)
          + Charge(t.tokensOut, p.outputPerMillion))
  }

  // ---------- The loop ----------

  datatype Scenario = Scenario(prompt: string, maxIterations: nat, timeoutMs: int)

  datatype Env = Env(
    hasKey: bool, provider: nat -> Reply, errors: Errors, start: int, now: nat -> int, tools: Tools, faults: Faults,
    passCheck: (string, seq<ToolCall>) -> Result<bool, string>, pricing: Pricing)

  /** Ended without an API key, at the deadline, by an error of the provider or of a tool, at the cap, or at the pass check. */
  datatype Ending =
    | MissingKey
    | TimedOut(after: nat)
    | Threw(error: Thrown)
    | ToolThrew(message: string)
    | HitMax
    | CheckThrew(message: string)
    | Checked(pass: bool)

  datatype CellRun = CellRun(
    ending: Ending, totals: Totals, costs: Costs, iterations: nat, finalText: string, toolCalls: seq<ToolCall>, truncated: bool)

  /** The responses received in the first `n` iterations and the number of the next reply, if none of them threw. */
  function Received(env: Env, n: nat): Option<(seq<Response>, nat)> {
    if n == 0 then Some(([], 0))
    else
      match Received(env, n - 1)
      case None => None
      case Some((rs, k)) =>
        var (result, next) := Retry(env.provider, env.errors, k, 0, false);
        if result.Ok? then Some((rs + [result.value], next)) else None
  }

  function LastText(rs: seq<Response>): string {
    if rs == [] then "" else FinalTextOf(rs[|rs| - 1].content)
  }

  ghost predicate UsesTools(r: Response) { ToolUsesOf(r.content) != [] }

  ghost predicate WasTruncated(rs: seq<Response>) { exists r :: r in rs && r.stopReason == "max_tokens" }

  /** No tool threw while the tool uses of the responses were served. */
  ghost predicate Served(env: Env, rs: seq<Response>) {
    rs == [] ||
    (var before, last := rs[..|rs| - 1], rs[|rs| - 1];
     Served(env, before) && FaultOf(env, before, last).None?)
  }

  /** What goes wrong when the tool uses of response `r` are served after `rs`. */
  function FaultOf(env: Env, rs: seq<Response>, r: Response): (fault: Option<(nat, string)>)
    ensures fault.Some? ==> fault.value.0 < |ToolUsesOf(r.content)|
  {
    FirstFault(env.tools, env.faults, Trace(env.tools, rs), ToolUsesOf(r.content))
  }

  /** The responses received: those served in full and the one whose tool uses were cut short, if any. */
  function All(rs: seq<Response>, cut: Option<Response>): seq<Response> {
    rs + if cut.Some? then [cut.value] else []
  }

  /**
   What holds of the recorded run and the conversation, given the responses received.  When a tool
   throws, the calls before it stay recorded and none of that response is answered.
   */
  ghost predicate IsRunOf(env: Env, scenario: Scenario, run: CellRun, messages: seq<Message>, rs: seq<Response>, cut: Option<Response>) {
    var all := All(rs, cut);
    && (match cut
        case None => messages == Messages(env.tools, scenario.prompt, rs) && run.toolCalls == Trace(env.tools, rs)
        case Some(r) =>
          && FaultOf(env, rs, r).Some?
          && messages == Messages(env.tools, scenario.prompt, rs) + [Assistant(BlocksOf(r.content))]
          && run.toolCalls == Trace(env.tools, rs)
               + CallsOf(env.tools, Trace(env.tools, rs), ToolUsesOf(r.content)[..FaultOf(env, rs, r).value.0]))
    && run.totals == TotalTokens(all)
    && run.costs == ComputeCosts(env.pricing, run.totals)
    && run.finalText == LastText(all)
    && run.iterations <= scenario.maxIterations
    && Received(env, |all|).Some? && Received(env, |all|).value.0 == all
    && Served(env, rs)
    && (forall i :: 0 <= i < |all| - 1 ==> UsesTools(all[i]))
    && (forall i :: 0 <= i < |all| ==> InTime(env, scenario, i))
  }

  /** After these responses the loop asks for another one, should time allow. */
  ghost predicate WantsMore(scenario: Scenario, rs: seq<Response>) {
    |rs| < scenario.maxIterations && (rs != [] ==> UsesTools(rs[|rs| - 1]))
  }

  ghost predicate InTime(env: Env, scenario: Scenario, k: nat) {
    env.now(k) <= env.start + scenario.timeoutMs
  }

  /** The iteration cap is reached with tools used and nothing said at the end. */
  ghost predicate Unanswered(scenario: Scenario, run: CellRun) {
    run.iterations >= scenario.maxIterations && run.toolCalls != [] && run.finalText == ""
  }

  /** Why the run ended, exactly. */
  ghost predicate EndedRight(env: Env, scenario: Scenario, run: CellRun, rs: seq<Response>, cut: Option<Response>) {
    && (env.hasKey <==> !run.ending.MissingKey?)
    && (cut.Some? <==> run.ending.ToolThrew?)
    && (run.truncated <==> run.ending.Checked? && WasTruncated(rs))
    && match run.ending
       case MissingKey => rs == [] && run.iterations == 0
       case TimedOut(after) =>
         && run.iterations == |rs| + 1 && after == |rs|
         && WantsMore(scenario, rs) && !InTime(env, scenario, |rs|)
       case Threw(error) =>
         && run.iterations == |rs| + 1
         && WantsMore(scenario, rs) && InTime(env, scenario, |rs|)
         && Received(env, |rs|).Some?
         && Retry(env.provider, env.errors, Received(env, |rs|).value.1, 0, false).0 == Err(error)
       case ToolThrew(message) =>
         && run.iterations == |rs| + 1 && cut.Some?
         && FaultOf(env, rs, cut.value).Some? && FaultOf(env, rs, cut.value).value.1 == message
       case HitMax => run.iterations == |rs| && !WantsMore(scenario, rs) && Unanswered(scenario, run)
       case CheckThrew(message) =>
         && run.iterations == |rs| && !WantsMore(scenario, rs) && !Unanswered(scenario, run)
         && env.passCheck(run.finalText, run.toolCalls) == Err(message)
       case Checked(pass) =>
         && run.iterations == |rs| && !WantsMore(scenario, rs) && !Unanswered(scenario, run)
         && env.passCheck(run.finalText, run.toolCalls) == Ok(pass)
  }

  method RunTools(tools: Tools, faults: Faults, uses: seq<RawBlock>, before: seq<ToolCall>)
    returns (toolCalls: seq<ToolCall>, toolResults: seq<ToolResult>, thrown: Option<string>)
    requires forall u :: u in uses ==> u.RawToolUse?
    ensures match FirstFault(tools, faults, before, uses)
      case None =>
        && thrown.None? && toolCalls == before + CallsOf(tools, before, uses)
        && toolResults == ResultsOf(uses, CallsOf(tools, before, uses))
      case Some(fault) => thrown == Some(fault.1) && toolCalls == before + CallsOf(tools, before, uses[..fault.0])
  {
    hide FirstFault, CallsOf, ResultsOf;
    toolCalls, toolResults, thrown := before, [], None;
    NothingServed(tools, faults, before, uses[..0]);
    for i := 0 to |uses|
      invariant thrown.None? && FirstFault(tools, faults, before, uses[..i]).None?
      invariant toolCalls == before + CallsOf(tools, before, uses[..i])
      invariant toolResults == ResultsOf(uses[..i], CallsOf(tools, before, uses[..i]))
    {
      var t := uses[i];
      var name := GetOr(t.name, "");
      NextUse(tools, faults, before, uses, i);
      thrown := faults(toolCalls, name, t.input);
      if thrown.Some? {
        FaultStays(tools, faults, before, uses, i + 1);
        return;
      }
      var output := GetOr(tools(toolCalls, name, t.input), "ERROR: unknown tool " + GetOr(t.name, "undefined"));
      toolCalls := toolCalls + [ToolCall(name, t.input, output)];
      toolResults := toolResults + [ToolResult(GetOr(t.id, ""), output)];
    }
    assert uses[..|uses|] == uses;
  }

  lemma NothingServed(tools: Tools, faults: Faults, before: seq<ToolCall>, uses: seq<RawBlock>)
    requires uses == []
    ensures FirstFault(tools, faults, before, uses).None?
    ensures before + CallsOf(tools, before, uses) == before && ResultsOf(uses, CallsOf(tools, before, uses)) == []
  {
  }

  /** Serving one more tool use: it throws, or it adds a call and its result. */
  lemma NextUse(tools: Tools, faults: Faults, before: seq<ToolCall>, uses: seq<RawBlock>, i: nat)
    requires (forall u :: u in uses ==> u.RawToolUse?) && i < |uses| && FirstFault(tools, faults, before, uses[..i]).None?
    ensures var earlier, t := CallsOf(tools, before, uses[..i]), uses[i];
      var call := CallOf(tools, before + earlier, t);
      && FirstFault(tools, faults, before, uses[..i + 1]) ==
           (var thrown := faults(before + earlier, GetOr(t.name, ""), t.input);
            if thrown.Some? then Some((i, thrown.value)) else None)
      && before + CallsOf(tools, before, uses[..i + 1]) == before + earlier + [call]
      && ResultsOf(uses[..i + 1], CallsOf(tools, before, uses[..i + 1])) ==
           ResultsOf(uses[..i], earlier) + [ToolResult(GetOr(t.id, ""), call.output)]
  {
    assert uses[..i + 1][..i] == uses[..i];
  }

  /** The program's variables, given the responses received so far. */
  ghost predicate Tracks(env: Env, scenario: Scenario, rs: seq<Response>, calls: nat, messages: seq<Message>,
                         toolCalls: seq<ToolCall>, totals: Totals, finalText: string, truncated: bool) {
    && Received(env, |rs|) == Some((rs, calls))
    && messages == Messages(env.tools, scenario.prompt, rs) && toolCalls == Trace(env.tools, rs)
    && totals == TotalTokens(rs) && finalText == LastText(rs) && (truncated <==> WasTruncated(rs))
  }

  /** Receiving one more response. */
  lemma NextResponse(env: Env, scenario: Scenario, rs: seq<Response>, calls: nat, messages: seq<Message>,
                     toolCalls: seq<ToolCall>, totals: Totals, finalText: string, truncated: bool, msg: Response, next: nat)
    requires Tracks(env, scenario, rs, calls, messages, toolCalls, totals, finalText, truncated)
    requires Retry(env.provider, env.errors, calls, 0, false) == (Ok(msg), next)
    ensures var uses := ToolUsesOf(msg.content); var made := CallsOf(env.tools, toolCalls, uses);
      Tracks(env, scenario, rs + [msg], next,
             messages + [Assistant(BlocksOf(msg.content))] + (if uses == [] then [] else [Results(ResultsOf(uses, made))]),
             toolCalls + made, Add(totals, TokensOf(msg)), FinalTextOf(msg.content),
             truncated || msg.stopReason == "max_tokens")
  {
    hide BlocksOf, ToolUsesOf, CallsOf, ResultsOf, FinalTextOf, TokensOf, Add, Retry;
    var more := rs + [msg];
    assert more[..|rs|] == rs && more[|more| - 1] == msg;
    assert Received(env, |rs| + 1) == Some((more, next));
    assert WasTruncated(more) <==> WasTruncated(rs) || msg.stopReason == "max_tokens" by {
      assert msg in more && forall r :: r in more <==> r in rs || r == msg;
    }
  }

  method RunCell(env: Env, scenario: Scenario)
    returns (run: CellRun, messages: seq<Message>, rs: seq<Response>, cut: Option<Response>)
    ensures IsRunOf(env, scenario, run, messages, rs, cut)
    ensures EndedRight(env, scenario, run, rs, cut)
  {
    hide BlocksOf, ToolUsesOf, CallsOf, ResultsOf, FinalTextOf, TokensOf, Add, Retry, ComputeCosts, Messages, Trace, Received;
    hide LastText, WasTruncated, TotalTokens, FirstFault, InProgress, IsRunOf;
    rs, cut := [], None;
    messages := [Prompt(scenario.prompt)];
    var toolCalls: seq<ToolCall> := [];
    var totals := Totals(0, 0, 0, 0);
    var iterations, calls: nat, finalText, truncated := 0, 0, "", false;
    NothingYet(env, scenario);
    if !env.hasKey {
      run := CellRun(MissingKey, totals, ComputeCosts(env.pricing, totals), 0, "", [], false);
      Recorded(env, scenario, rs, calls, messages, toolCalls, totals, finalText, truncated, run);
      return;
    }
    var deadline := env.start + scenario.timeoutMs;
    while iterations < scenario.maxIterations
      invariant iterations == |rs| <= scenario.maxIterations
      invariant Tracks(env, scenario, rs, calls, messages, toolCalls, totals, finalText, truncated)
      invariant InProgress(env, scenario, rs) && (rs != [] ==> UsesTools(rs[|rs| - 1]))
      decreases scenario.maxIterations - iterations
    {
      iterations := iterations + 1;
      if env.now(iterations - 1) > deadline {
        run := CellRun(TimedOut(iterations - 1), totals, ComputeCosts(env.pricing, totals), iterations, finalText, toolCalls, false);
        Recorded(env, scenario, rs, calls, messages, toolCalls, totals, finalText, truncated, run);
        return;
      }
      var result, next, _ := CallModel(env.provider, env.errors, calls);
      if result.Err? {
        run := CellRun(Threw(result.error), totals, ComputeCosts(env.pricing, totals), iterations, finalText, toolCalls, false);
        Recorded(env, scenario, rs, calls, messages, toolCalls, totals, finalText, truncated, run);
        return;
      }
      var msg := result.value;
      NextResponse(env, scenario, rs, calls, messages, toolCalls, totals, finalText, truncated, msg, next);
      totals := Add(totals, TokensOf(msg));
      truncated := truncated || msg.stopReason == "max_tokens";
      var toolUses := ToolUsesOf(msg.content);
      finalText := FinalTextOf(msg.content);
      ghost var asked := messages;
      messages := messages + [Assistant(BlocksOf(msg.content))];
      if |toolUses| == 0 {
        NoCalls(env.tools, toolCalls, toolUses, messages);
        NothingServed(env.tools, env.faults, toolCalls, toolUses);
        Progressed(env, scenario, rs, msg);
        rs, calls := rs + [msg], next;
        break;
      }
      ghost var before := toolCalls;
      var toolResults, thrown;
      toolCalls, toolResults, thrown := RunTools(env.tools, env.faults, toolUses, toolCalls);
      if thrown.Some? {
        cut := Some(msg);
        run := CellRun(ToolThrew(thrown.value), totals, ComputeCosts(env.pricing, totals), iterations, finalText, toolCalls, false);
        ghost var fault := FaultOf(env, rs, msg).value;
        RecordedCut(env, scenario, rs, asked, before, run, msg, next, fault.0, fault.1);
        return;
      }
      messages := messages + [Results(toolResults)];
      Progressed(env, scenario, rs, msg);
      rs, calls := rs + [msg], next;
    }
    assert !WantsMore(scenario, rs);
    hide WantsMore, UsesTools, FaultOf, EndedRight;
    var costs := ComputeCosts(env.pricing, totals);
    var reachedCap := iterations >= scenario.maxIterations;
    if reachedCap && |toolCalls| > 0 && finalText == "" {
      run := CellRun(HitMax, totals, costs, iterations, finalText, toolCalls, false);
    } else {
      var result := env.passCheck(finalText, toolCalls);
      if result.Err? {
        run := CellRun(CheckThrew(result.error), totals, costs, iterations, finalText, toolCalls, false);
      } else {
        run := CellRun(Checked(result.value), totals, costs, iterations, finalText, toolCalls, truncated);
      }
    }
    Recorded(env, scenario, rs, calls, messages, toolCalls, totals, finalText, truncated, run);
    Concluded(env, scenario, run, rs);
  }

  /** A run that got to the end of the loop. */
  lemma Concluded(env: Env, scenario: Scenario, run: CellRun, rs: seq<Response>)
    requires env.hasKey && !WantsMore(scenario, rs) && run.iterations == |rs|
    requires run.truncated <==> run.ending.Checked? && WasTruncated(rs)
    requires run.ending ==
      if Unanswered(scenario, run) then HitMax
      else match env.passCheck(run.finalText, run.toolCalls) case Err(m) => CheckThrew(m) case Ok(pass) => Checked(pass)
    ensures EndedRight(env, scenario, run, rs, None)
  {
    hide WantsMore, WasTruncated, Unanswered;
  }

  lemma NothingYet(env: Env, scenario: Scenario)
    ensures Tracks(env, scenario, [], 0, [Prompt(scenario.prompt)], [], Totals(0, 0, 0, 0), "", false) && InProgress(env, scenario, [])
  {
  }

  lemma NoCalls(tools: Tools, before: seq<ToolCall>, uses: seq<RawBlock>, messages: seq<Message>)
    requires uses == []
    ensures before + CallsOf(tools, before, uses) == before && messages + [] == messages
  {
  }

  /** The responses so far, all served, each but perhaps the last asking for tools, and received in time. */
  ghost predicate InProgress(env: Env, scenario: Scenario, rs: seq<Response>) {
    && Served(env, rs)
    && (forall i :: 0 <= i < |rs| - 1 ==> UsesTools(rs[i]))
    && (forall i :: 0 <= i < |rs| ==> InTime(env, scenario, i))
  }

  lemma Recorded(env: Env, scenario: Scenario, rs: seq<Response>, calls: nat, messages: seq<Message>,
                 toolCalls: seq<ToolCall>, totals: Totals, finalText: string, truncated: bool, run: CellRun)
    requires Tracks(env, scenario, rs, calls, messages, toolCalls, totals, finalText, truncated) && InProgress(env, scenario, rs)
    requires run.toolCalls == toolCalls && run.totals == totals && run.costs == ComputeCosts(env.pricing, totals)
    requires run.finalText == finalText && run.iterations <= scenario.maxIterations
    ensures IsRunOf(env, scenario, run, messages, rs, None)
  {
    hide ComputeCosts, Messages, Trace, Received, LastText, WasTruncated, TotalTokens, Served, UsesTools;
    assert All(rs, None) == rs;
  }

  /** A response whose tool uses were cut short at place `at`. */
  lemma RecordedCut(env: Env, scenario: Scenario, rs: seq<Response>, messages: seq<Message>, toolCalls: seq<ToolCall>, run: CellRun,
                    msg: Response, next: nat, at: nat, message: string)
    requires InProgress(env, scenario, rs) && (rs != [] ==> UsesTools(rs[|rs| - 1])) && InTime(env, scenario, |rs|)
    requires messages == Messages(env.tools, scenario.prompt, rs) && toolCalls == Trace(env.tools, rs)
    requires FaultOf(env, rs, msg) == Some((at, message))
    requires Received(env, |rs| + 1) == Some((rs + [msg], next))
    requires run.toolCalls == toolCalls + CallsOf(env.tools, toolCalls, ToolUsesOf(msg.content)[..at])
    requires run.totals == TotalTokens(rs + [msg]) && run.costs == ComputeCosts(env.pricing, run.totals)
    requires run.finalText == LastText(rs + [msg]) && run.iterations <= scenario.maxIterations
    ensures IsRunOf(env, scenario, run, messages + [Assistant(BlocksOf(msg.content))], rs, Some(msg))
  {
    hide ComputeCosts, Messages, Trace, Received, LastText, WasTruncated, TotalTokens, Served, UsesTools, CallsOf, ToolUsesOf, BlocksOf, FaultOf;
    var all := All(rs, Some(msg));
    assert all == rs + [msg];
    forall i | 0 <= i < |all| - 1 ensures UsesTools(all[i]) {
      assert all[i] == rs[i];
    }
    forall i | 0 <= i < |all| ensures InTime(env, scenario, i) {
    }
  }

  lemma Progressed(env: Env, scenario: Scenario, rs: seq<Response>, msg: Response)
    requires InProgress(env, scenario, rs) && (rs != [] ==> UsesTools(rs[|rs| - 1])) && InTime(env, scenario, |rs|)
    requires FaultOf(env, rs, msg).None?
    ensures InProgress(env, scenario, rs + [msg])
  {
    hide FaultOf, UsesTools, Served;
    ServedNext(env, rs, msg);
  }

  lemma ServedNext(env: Env, rs: seq<Response>, r: Response)
    requires Served(env, rs)
    ensures Served(env, rs + [r]) <==> FaultOf(env, rs, r).None?
  {
    assert (rs + [r])[..|rs|] == rs;
  }

  // ---------- Reachable conversations ----------

  /** The tool-use ids of an assistant message, in order. */
  function ToolUseIds(blocks: seq<Block>): seq<string> {
    if blocks == [] then []
    else (if blocks[0].ToolUse? then [blocks[0].id] else []) + ToolUseIds(blocks[1..])
  }

  function ResultIds(results: seq<ToolResult>): seq<string> {
    seq(|results|, i requires 0 <= i < |results| => results[i].toolUseId)
  }

  function UseIds(uses: seq<RawBlock>): seq<string>
    requires forall u :: u in uses ==> u.RawToolUse?
  {
    seq(|uses|, i requires 0 <= i < |uses| => GetOr(uses[i].id, ""))
  }

  lemma ToolUseIdsCons(block: Block, rest: seq<Block>)
    ensures ToolUseIds([block] + rest) == (if block.ToolUse? then [block.id] else []) + ToolUseIds(rest)
  {
    assert ([block] + rest)[1..] == rest;
  }

  lemma UseIdsCons(use: RawBlock, rest: seq<RawBlock>)
    requires use.RawToolUse? && forall u :: u in rest ==> u.RawToolUse?
    ensures UseIds([use] + rest) == [GetOr(use.id, "")] + UseIds(rest)
  {
  }

  /** The assistant message carries exactly the tool uses that are answered, in order. */
  lemma {:induction false} BlocksCarryUses(content: seq<RawBlock>)
    ensures ToolUseIds(BlocksOf(content)) == UseIds(ToolUsesOf(content))
  {
    hide ToolUseIds, UseIds;
    if content == [] {
      NoIds();
    } else {
      var head, blocks, uses := content[0], BlocksOf(content[1..]), ToolUsesOf(content[1..]);
      BlocksCarryUses(content[1..]);
      ToolUseIdsCons(BlockOf(head), blocks);
      if head.RawToolUse? {
        UseIdsCons(head, uses);
        assert BlocksOf(content) == [BlockOf(head)] + blocks && ToolUsesOf(content) == [head] + uses;
      } else {
        assert ToolUsesOf(content) == uses;
        assert BlocksOf(content) == blocks || BlocksOf(content) == [BlockOf(head)] + blocks;
        assert [] + ToolUseIds(blocks) == ToolUseIds(blocks);
      }
    }
  }

  lemma NoIds()
    ensures ToolUseIds([]) == UseIds([])
  {
  }

  /** The texts of an assistant message, in order. */
  function BlockTexts(blocks: seq<Block>): seq<string> {
    if blocks == [] then []
    else (if blocks[0].Text? then [blocks[0].text] else []) + BlockTexts(blocks[1..])
  }

  lemma BlockTextsCons(block: Block, rest: seq<Block>)
    ensures BlockTexts([block] + rest) == (if block.Text? then [block.text] else []) + BlockTexts(rest)
  {
    assert ([block] + rest)[1..] == rest;
  }

  /** The final text is what the last assistant message says. */
  lemma {:induction false} FinalTextIsSent(content: seq<RawBlock>)
    ensures FinalTextOf(content) == T.JoinLines(BlockTexts(BlocksOf(content)))
    ensures BlockTexts(BlocksOf(content)) == TextsOf(content)
  {
    hide T.JoinLines;
    if content != [] {
      FinalTextIsSent(content[1..]);
      BlockTextsCons(BlockOf(content[0]), BlocksOf(content[1..]));
      assert [] + BlocksOf(content[1..]) == BlocksOf(content[1..]);
      assert [] + TextsOf(content[1..]) == TextsOf(content[1..]);
    }
  }

  /** User and assistant alternate from the prompt on, and a message after an assistant one answers its tool uses. */
  ghost predicate WellFormed(prompt: string, messages: seq<Message>) {
    && messages != [] && messages[0] == Prompt(prompt)
    && (forall i :: 0 <= i < |messages| ==> (messages[i].Assistant? <==> i % 2 == 1))
    && (forall i :: 0 < i < |messages| && i % 2 == 0 ==> Answers(messages[i - 1], messages[i]))
  }

  /** One result for each tool use, in order. */
  ghost predicate Answers(question: Message, answer: Message) {
    && question.Assistant? && answer.Results?
    && ResultIds(answer.results) == ToolUseIds(question.blocks) && answer.results != []
  }

  /** The outputs reported back over the whole conversation. */
  function Outputs(messages: seq<Message>): seq<string> {
    if messages == [] then []
    else
      var last := messages[|messages| - 1];
      Outputs(messages[..|messages| - 1])
      + if last.Results? then seq(|last.results|, i requires 0 <= i < |last.results| => last.results[i].content) else []
  }

  function CallOutputs(calls: seq<ToolCall>): seq<string> {
    seq(|calls|, i requires 0 <= i < |calls| => calls[i].output)
  }

  /** The uses answered so far, over all responses. */
  function AllUses(rs: seq<Response>): (uses: seq<RawBlock>)
    ensures forall u :: u in uses ==> u.RawToolUse?
  {
    if rs == [] then [] else AllUses(rs[..|rs| - 1]) + ToolUsesOf(rs[|rs| - 1].content)
  }

  /**
   The call is made for this use after these calls: its name, where a missing one is empty, its input,
   and what the tool answers, or an error that names an unknown tool.
   */
  ghost predicate IsCallFor(tools: Tools, before: seq<ToolCall>, use: RawBlock, call: ToolCall)
    requires use.RawToolUse?
  {
    && call.name == (if use.name.Some? then use.name.value else "") && call.input == use.input
    && match tools(before, call.name, use.input)
       case Some(output) => call.output == output
       case None => call.output == "ERROR: unknown tool " + if use.name.Some? then use.name.value else "undefined"
  }

  lemma CallIsFor(tools: Tools, before: seq<ToolCall>, use: RawBlock)
    requires use.RawToolUse?
    ensures IsCallFor(tools, before, use, CallOf(tools, before, use))
  {
  }

  /** Each recorded call is made for the use at the same place, with the state the earlier calls left. */
  ghost predicate Records(tools: Tools, calls: seq<ToolCall>, uses: seq<RawBlock>)
    requires forall u :: u in uses ==> u.RawToolUse?
  {
    |calls| == |uses| && forall i :: 0 <= i < |uses| ==> IsCallFor(tools, calls[..i], uses[i], calls[i])
  }

  lemma {:induction false} MessagesSize(tools: Tools, prompt: string, rs: seq<Response>)
    requires forall i :: 0 <= i < |rs| ==> UsesTools(rs[i])
    ensures |Messages(tools, prompt, rs)| == 2 * |rs| + 1
  {
    if rs != [] {
      MessagesSize(tools, prompt, rs[..|rs| - 1]);
      assert UsesTools(rs[|rs| - 1]);
    }
  }

  lemma WellFormedGrows(prompt: string, messages: seq<Message>, question: Message, answer: Message)
    requires WellFormed(prompt, messages) && |messages| % 2 == 1 && question.Assistant?
    ensures WellFormed(prompt, messages + [question])
    ensures Answers(question, answer) ==> WellFormed(prompt, messages + [question] + [answer])
  {
  }

  /** Every reachable conversation is well formed: all responses but the last asked for tools. */
  lemma {:induction false} ConversationWellFormed(tools: Tools, prompt: string, rs: seq<Response>)
    requires forall i :: 0 <= i < |rs| - 1 ==> UsesTools(rs[i])
    ensures WellFormed(prompt, Messages(tools, prompt, rs))
  {
    hide BlocksOf, CallsOf, ResultsOf, ToolUseIds, UseIds, ResultIds;
    if rs != [] {
      var before, last := rs[..|rs| - 1], rs[|rs| - 1].content;
      var uses := ToolUsesOf(last);
      var calls := CallsOf(tools, Trace(tools, before), uses);
      var messages := Messages(tools, prompt, before);
      ConversationWellFormed(tools, prompt, before);
      MessagesSize(tools, prompt, before);
      BlocksCarryUses(last);
      ResultIdsOf(uses, calls);
      WellFormedGrows(prompt, messages, Assistant(BlocksOf(last)), Results(ResultsOf(uses, calls)));
      assert messages + [Assistant(BlocksOf(last))] + [] == messages + [Assistant(BlocksOf(last))];
    }
  }

  lemma ResultIdsOf(uses: seq<RawBlock>, calls: seq<ToolCall>)
    requires |uses| == |calls| && forall u :: u in uses ==> u.RawToolUse?
    ensures ResultIds(ResultsOf(uses, calls)) == UseIds(uses) && |ResultsOf(uses, calls)| == |uses|
  {
  }

  lemma {:induction false} CallsRecord(tools: Tools, before: seq<ToolCall>, uses: seq<RawBlock>)
    requires forall u :: u in uses ==> u.RawToolUse?
    ensures var calls := CallsOf(tools, before, uses);
      forall i :: 0 <= i < |uses| ==> IsCallFor(tools, before + calls[..i], uses[i], calls[i])
  {
    hide IsCallFor, CallOf;
    if uses != [] {
      CallIsFor(tools, before + CallsOf(tools, before, uses[..|uses| - 1]), uses[|uses| - 1]);
      var n := |uses| - 1;
      var earlier, calls := CallsOf(tools, before, uses[..n]), CallsOf(tools, before, uses);
      CallsRecord(tools, before, uses[..n]);
      forall i | 0 <= i < |uses| ensures IsCallFor(tools, before + calls[..i], uses[i], calls[i]) {
        assert calls[..i] == earlier[..i];
        if i == n {
          assert earlier[..n] == earlier;
        }
      }
    }
  }

  /** The recorded calls are the concatenation of all answered tool uses, each made with the state the earlier ones left. */
  lemma {:induction false} TraceRecords(tools: Tools, rs: seq<Response>)
    ensures Records(tools, Trace(tools, rs), AllUses(rs))
  {
    if rs != [] {
      var before, uses := rs[..|rs| - 1], ToolUsesOf(rs[|rs| - 1].content);
      var earlier, now := Trace(tools, before), CallsOf(tools, Trace(tools, before), uses);
      TraceRecords(tools, before);
      CallsRecord(tools, earlier, uses);
      RecordsAppend(tools, earlier, AllUses(before), now, uses);
    }
  }

  lemma RecordsAppend(tools: Tools, a: seq<ToolCall>, us: seq<RawBlock>, b: seq<ToolCall>, vs: seq<RawBlock>)
    requires (forall u :: u in us ==> u.RawToolUse?) && (forall v :: v in vs ==> v.RawToolUse?)
    requires Records(tools, a, us) && |b| == |vs|
    requires forall i :: 0 <= i < |vs| ==> IsCallFor(tools, a + b[..i], vs[i], b[i])
    ensures Records(tools, a + b, us + vs)
  {
    hide IsCallFor;
    var calls, uses := a + b, us + vs;
    forall i | 0 <= i < |uses| ensures IsCallFor(tools, calls[..i], uses[i], calls[i]) {
      if i < |us| {
        assert calls[..i] == a[..i];
      } else {
        assert calls[..i] == a + b[..i - |us|];
      }
    }
  }

  lemma OutputsPush(messages: seq<Message>, m: Message)
    ensures Outputs(messages + [m]) ==
      Outputs(messages) + if m.Results? then seq(|m.results|, i requires 0 <= i < |m.results| => m.results[i].content) else []
  {
    assert (messages + [m])[..|messages|] == messages;
  }

  lemma ResultContents(uses: seq<RawBlock>, calls: seq<ToolCall>)
    requires |uses| == |calls| && forall u :: u in uses ==> u.RawToolUse?
    ensures var results := ResultsOf(uses, calls);
      seq(|results|, i requires 0 <= i < |results| => results[i].content) == CallOutputs(calls)
  {
  }

  lemma CallOutputsAppend(a: seq<ToolCall>, b: seq<ToolCall>)
    ensures CallOutputs(a + b) == CallOutputs(a) + CallOutputs(b)
  {
  }

  /** What the model was told is what the tools answered. */
  lemma {:induction false} OutputsAreReported(tools: Tools, prompt: string, rs: seq<Response>)
    ensures Outputs(Messages(tools, prompt, rs)) == CallOutputs(Trace(tools, rs))
  {
    hide Outputs, CallOutputs, BlocksOf, CallsOf, ResultsOf;
    if rs == [] {
      NoOutputs(prompt);
    } else {
      var before, last := rs[..|rs| - 1], rs[|rs| - 1].content;
      var uses, messages := ToolUsesOf(last), Messages(tools, prompt, before);
      var calls := CallsOf(tools, Trace(tools, before), uses);
      OutputsAreReported(tools, prompt, before);
      CallOutputsAppend(Trace(tools, before), calls);
      OutputsPush(messages, Assistant(BlocksOf(last)));
      OutputsPush(messages + [Assistant(BlocksOf(last))], Results(ResultsOf(uses, calls)));
      ResultContents(uses, calls);
      if uses == [] {
        NoCalls(tools, Trace(tools, before), uses, messages + [Assistant(BlocksOf(last))]);
      }
    }
  }

  lemma NoOutputs(prompt: string)
    ensures Outputs([Prompt(prompt)]) == CallOutputs([])
  {
    assert [Prompt(prompt)][..0] == [] && Outputs([]) == [];
  }

  // ---------- Costs ----------

  lemma ChargeAdds(b: nat, c: nat, rate: real)
    ensures Charge(b + c, rate) == Charge(b, rate) + Charge(c, rate)
  {
    var x, y := b as real / 1000000.0, c as real / 1000000.0;
    assert (b + c) as real / 1000000.0 == x + y;
    assert (x + y) * rate == x * rate + y * rate;
  }

  /** The costs of totals add up. */
  lemma CostsAdd(p: Pricing, a: Totals, b: Totals)
    ensures ComputeCosts(p, Add(a, b)).cold == ComputeCosts(p, a).cold + ComputeCosts(p, b).cold
    ensures ComputeCosts(p, Add(a, b)).warm == ComputeCosts(p, a).warm + ComputeCosts(p, b).warm
  {
    hide Charge;
    ChargeAdds(a.tokensIn + a.cacheRead + a.cacheCreation, b.tokensIn + b.cacheRead + b.cacheCreation, p.inputPerMillion);
    ChargeAdds(a.tokensOut, b.tokensOut, p.outputPerMillion);
    ChargeAdds(a.tokensIn, b.tokensIn, p.inputPerMillion);
    ChargeAdds(a.cacheRead, b.cacheRead, GetOr(p.cacheReadPerMillion, p.inputPerMillion));
    ChargeAdds(a.cacheCreation, b.cacheCreation, GetOr(p.cacheWritePerMillion, p.inputPerMillion));
    var left := a.tokensIn + a.cacheRead + a.cacheCreation + (b.tokensIn + b.cacheRead + b.cacheCreation);
    assert left == a.tokensIn + b.tokensIn + (a.cacheRead + b.cacheRead) + (a.cacheCreation + b.cacheCreation);
  }

  ghost function SumOfCosts(p: Pricing, rs: seq<Response>): Costs {
    if rs == [] then Costs(0.0, 0.0)
    else
      var before, last := SumOfCosts(p, rs[..|rs| - 1]), ComputeCosts(p, TokensOf(rs[|rs| - 1]));
      Costs(before.cold + last.cold, before.warm + last.warm)
  }

  /** The cost of the totals is the sum of the costs of the responses. */
  lemma {:induction false} CostOfTotals(p: Pricing, rs: seq<Response>)
    ensures ComputeCosts(p, TotalTokens(rs)) == SumOfCosts(p, rs)
  {
    hide TokensOf;
    if rs != [] {
      CostOfTotals(p, rs[..|rs| - 1]);
      hide ComputeCosts;
      CostsAdd(p, TotalTokens(rs[..|rs| - 1]), TokensOf(rs[|rs| - 1]));
    }
  }

  /** Caching pays exactly when what reading saves covers what writing costs extra. */
  lemma WarmAtMostCold(p: Pricing, t: Totals)
    ensures var saved := p.inputPerMillion - GetOr(p.cacheReadPerMillion, p.inputPerMillion);
      var premium := GetOr(p.cacheWritePerMillion, p.inputPerMillion) - p.inputPerMillion;
      ComputeCosts(p, t).warm <= ComputeCosts(p, t).cold <==> t.cacheCreation as real * premium <= t.cacheRead as real * saved
  {
    hide Charge;
    var i, r, w := p.inputPerMillion, GetOr(p.cacheReadPerMillion, p.inputPerMillion), GetOr(p.cacheWritePerMillion, p.inputPerMillion);
    ChargeAdds(t.tokensIn, t.cacheRead + t.cacheCreation, i);
    ChargeAdds(t.cacheRead, t.cacheCreation, i);
    assert t.tokensIn + t.cacheRead + t.cacheCreation == t.tokensIn + (t.cacheRead + t.cacheCreation);
    RateDifference(t.cacheRead, i, r);
    RateDifference(t.cacheCreation, w, i);
    ChargeOrder(t.cacheCreation, w - i, t.cacheRead, i - r);
  }

  /** A cell without cache rates gets the input rate for both, so caching changes nothing. */
  lemma NoCacheRates(p: Pricing, t: Totals)
    requires p.cacheReadPerMillion.None? && p.cacheWritePerMillion.None?
    ensures ComputeCosts(p, t).warm == ComputeCosts(p, t).cold
  {
    hide Charge;
    ChargeAdds(t.tokensIn, t.cacheRead + t.cacheCreation, p.inputPerMillion);
    ChargeAdds(t.cacheRead, t.cacheCreation, p.inputPerMillion);
    assert t.tokensIn + t.cacheRead + t.cacheCreation == t.tokensIn + (t.cacheRead + t.cacheCreation);
  }

  lemma RateDifference(n: nat, i: real, r: real)
    ensures Charge(n, i) - Charge(n, r) == Charge(n, i - r)
  {
    var x := n as real / 1000000.0;
    assert x * i - x * r == x * (i - r);
  }

  lemma ChargeOrder(b: nat, q: real, a: nat, s: real)
    ensures Charge(b, q) <= Charge(a, s) <==> b as real * q <= a as real * s
  {
    assert Charge(a, s) == (a as real * s) / 1000000.0;
    assert Charge(b, q) == (b as real * q) / 1000000.0;
  }

  /** What a million tokens of each kind cost, cold and warm; a missing cache rate is the input rate. */
  lemma PriceOfEachKind(p: Pricing)
    ensures ComputeCosts(p, Totals(1000000, 0, 0, 0)) == Costs(p.inputPerMillion, p.inputPerMillion)
    ensures ComputeCosts(p, Totals(0, 1000000, 0, 0)) == Costs(p.outputPerMillion, p.outputPerMillion)
    ensures ComputeCosts(p, Totals(0, 0, 1000000, 0)) ==
      Costs(p.inputPerMillion, if p.cacheReadPerMillion.Some? then p.cacheReadPerMillion.value else p.inputPerMillion)
    ensures ComputeCosts(p, Totals(0, 0, 0, 1000000)) ==
      Costs(p.inputPerMillion, if p.cacheWritePerMillion.Some? then p.cacheWritePerMillion.value else p.inputPerMillion)
  {
  }

  /** The sum of one usage field over the responses; where the usage or the field is missing it counts 0. */
  ghost function SumOf(rs: seq<Response>, field: Usage -> Option<nat>): nat {
    if rs == [] then 0
    else
      var last := rs[|rs| - 1];
      SumOf(rs[..|rs| - 1], field) + if last.usage.Some? && field(last.usage.value).Some? then field(last.usage.value).value else 0
  }

  lemma {:induction false} TotalsAreSums(rs: seq<Response>)
    ensures TotalTokens(rs).tokensIn == SumOf(rs, (u: Usage) => u.input)
    ensures TotalTokens(rs).tokensOut == SumOf(rs, (u: Usage) => u.output)
    ensures TotalTokens(rs).cacheRead == SumOf(rs, (u: Usage) => u.cacheRead)
    ensures TotalTokens(rs).cacheCreation == SumOf(rs, (u: Usage) => u.cacheCreation)
  {
    if rs != [] {
      TotalsAreSums(rs[..|rs| - 1]);
    }
  }

  // ---------- Whole runs ----------

  /** Each iteration that was not cut short cost one to five provider calls. */
  lemma {:induction false} CallsPerIteration(env: Env, n: nat)
    ensures Received(env, n).Some? ==>
      var (rs, k) := Received(env, n).value; |rs| == n && n <= k <= 5 * n
  {
    hide Retry;
    if n > 0 && Received(env, n).Some? {
      CallsPerIteration(env, n - 1);
      RetryBounds(env.provider, env.errors, Received(env, n - 1).value.1);
    }
  }

  /** What was answered of the tool uses of all responses: all of them, up to the one that threw. */
  function AnsweredUses(env: Env, rs: seq<Response>, cut: Option<Response>): (uses: seq<RawBlock>)
    ensures forall u :: u in uses ==> u.RawToolUse?
  {
    AllUses(rs)
    + if cut.None? || FaultOf(env, rs, cut.value).None? then []
      else ToolUsesOf(cut.value.content)[..FaultOf(env, rs, cut.value).value.0]
  }

  /**
   What every run guarantees, whatever the provider, the clock and the tools did.  Every recorded
   output was reported back, except those of a response in which a tool threw.
   */
  lemma EveryRun(env: Env, scenario: Scenario, run: CellRun, messages: seq<Message>, rs: seq<Response>, cut: Option<Response>)
    requires IsRunOf(env, scenario, run, messages, rs, cut)
    ensures WellFormed(scenario.prompt, messages)
    ensures Records(env.tools, run.toolCalls, AnsweredUses(env, rs, cut))
    ensures Outputs(messages) == CallOutputs(Trace(env.tools, rs)) <= CallOutputs(run.toolCalls)
    ensures cut.None? ==> Outputs(messages) == CallOutputs(run.toolCalls)
    ensures run.costs == SumOfCosts(env.pricing, All(rs, cut))
  {
    hide Messages, Trace, Received, WellFormed, Records, AllUses, ComputeCosts, Outputs, SumOfCosts, TotalTokens, Served;
    hide CallsOf, ToolUsesOf, FirstFault, BlocksOf, FinalTextOf;
    var messages0 := Messages(env.tools, scenario.prompt, rs);
    assert cut.Some? ==> All(rs, cut) == rs + [cut.value];
    assert cut.None? ==> All(rs, cut) == rs;
    forall i | 0 <= i < |rs| - 1 ensures UsesTools(rs[i]) {
      assert All(rs, cut)[i] == rs[i];
    }
    ConversationWellFormed(env.tools, scenario.prompt, rs);
    TraceRecords(env.tools, rs);
    OutputsAreReported(env.tools, scenario.prompt, rs);
    CostOfTotals(env.pricing, All(rs, cut));
    if cut.Some? {
      var done := ToolUsesOf(cut.value.content)[..FaultOf(env, rs, cut.value).value.0];
      forall i | 0 <= i < |rs| ensures UsesTools(rs[i]) {
        assert All(rs, cut)[i] == rs[i];
      }
      MessagesSize(env.tools, scenario.prompt, rs);
      WellFormedGrows(scenario.prompt, messages0, Assistant(BlocksOf(cut.value.content)), Assistant([]));
      OutputsPush(messages0, Assistant(BlocksOf(cut.value.content)));
      CallsRecord(env.tools, Trace(env.tools, rs), done);
      RecordsAppend(env.tools, Trace(env.tools, rs), AllUses(rs), CallsOf(env.tools, Trace(env.tools, rs), done), done);
      CallOutputsAppend(Trace(env.tools, rs), CallsOf(env.tools, Trace(env.tools, rs), done));
    } else {
      assert AnsweredUses(env, rs, cut) == AllUses(rs);
    }
  }

  /** Each total of a run is the sum of its own usage field over the responses received, a missing one counting 0. */
  lemma RunTotals(env: Env, scenario: Scenario, run: CellRun, messages: seq<Message>, rs: seq<Response>, cut: Option<Response>)
    requires IsRunOf(env, scenario, run, messages, rs, cut)
    ensures run.totals.tokensIn == SumOf(All(rs, cut), (u: Usage) => u.input)
    ensures run.totals.tokensOut == SumOf(All(rs, cut), (u: Usage) => u.output)
    ensures run.totals.cacheRead == SumOf(All(rs, cut), (u: Usage) => u.cacheRead)
    ensures run.totals.cacheCreation == SumOf(All(rs, cut), (u: Usage) => u.cacheCreation)
  {
    TotalsAreSums(All(rs, cut));
  }

  /** The final text of a run is what the assistant said last, and empty before it has said anything. */
  lemma {:induction false} FinalTextIsLast(rs: seq<Response>)
    ensures LastText(rs) == if rs == [] then "" else T.JoinLines(BlockTexts(BlocksOf(rs[|rs| - 1].content)))
  {
    if rs != [] {
      FinalTextIsSent(rs[|rs| - 1].content);
    }
  }

  /** Only a run that got to the pass check is flagged as truncated, and only if a response hit the output limit. */
  lemma TruncatedMeans(env: Env, scenario: Scenario, run: CellRun, rs: seq<Response>, cut: Option<Response>)
    requires EndedRight(env, scenario, run, rs, cut)
    ensures run.truncated <==> run.ending.Checked? && exists i :: 0 <= i < |rs| && rs[i].stopReason == "max_tokens"
  {
    hide Retry;
    if WasTruncated(rs) {
      var r :| r in rs && r.stopReason == "max_tokens";
      var i :| 0 <= i < |rs| && rs[i] == r;
    }
  }

  /** A run that ends with an error of the provider ends with its message: the missing-message throw is never reached. */
  lemma NeverWithoutMessage(env: Env, scenario: Scenario, run: CellRun, rs: seq<Response>, cut: Option<Response>)
    requires EndedRight(env, scenario, run, rs, cut)
    ensures run.ending.Threw? ==> run.ending.error.ProviderError?
  {
    hide Retry;
    if run.ending.Threw? {
      RetryBounds(env.provider, env.errors, Received(env, |rs|).value.1);
    }
  }

  // ---------- The run is determined ----------

  /** After these responses another one is received. */
  ghost predicate GoesOn(env: Env, scenario: Scenario, all: seq<Response>) {
    env.hasKey && WantsMore(scenario, all) && InTime(env, scenario, |all|) && Served(env, all) && Received(env, |all| + 1).Some?
  }

  lemma {:induction false} ReceivedPrefix(env: Env, n: nat, k: nat)
    requires k <= n && Received(env, n).Some?
    ensures Received(env, k).Some? && |Received(env, n).value.0| == n && Received(env, k).value.0 == Received(env, n).value.0[..k]
  {
    hide Retry;
    CallsPerIteration(env, n);
    if k < n {
      ReceivedPrefix(env, n - 1, k);
      var now, before := Received(env, n).value.0, Received(env, n - 1).value.0;
      assert now[..n - 1] == before;
      assert now[..k] == before[..k];
    } else {
      var now := Received(env, n).value.0;
      assert now[..n] == now;
    }
  }

  lemma {:induction false} ServedPrefix(env: Env, rs: seq<Response>, k: nat)
    requires k <= |rs| && Served(env, rs)
    ensures Served(env, rs[..k])
  {
    if k < |rs| {
      ServedPrefix(env, rs[..|rs| - 1], k);
      assert rs[..|rs| - 1][..k] == rs[..k];
    } else {
      assert rs[..k] == rs;
    }
  }

  /** A run ends only where nothing else is possible. */
  lemma StopsHere(env: Env, scenario: Scenario, run: CellRun, messages: seq<Message>, rs: seq<Response>, cut: Option<Response>)
    ensures Meets(env, scenario, run, messages, rs, cut)
      ==> !GoesOn(env, scenario, All(rs, cut)) && (cut.None? <==> Served(env, All(rs, cut)))
  {
    hide Retry, FaultOf, Served, Messages, Trace;
    match cut
    case None => assert All(rs, cut) == rs;
    case Some(r) =>
      assert All(rs, cut) == rs + [r];
      if Served(env, rs) {
        ServedNext(env, rs, r);
      }
  }

  /** Before its end a run has no choice but to go on. */
  lemma WentOn(env: Env, scenario: Scenario, run: CellRun, messages: seq<Message>, rs: seq<Response>, cut: Option<Response>, k: nat)
    requires k < |All(rs, cut)|
    ensures Meets(env, scenario, run, messages, rs, cut) ==> GoesOn(env, scenario, All(rs, cut)[..k])
  {
    hide Retry, FaultOf, Served, Messages, Trace, Received;
    if Meets(env, scenario, run, messages, rs, cut) {
      var all := All(rs, cut);
      ReceivedPrefix(env, |all|, k + 1);
      assert all[..k] == rs[..k];
      ServedPrefix(env, rs, k);
      if k > 0 {
        assert UsesTools(all[k - 1]) && all[..k][k - 1] == all[k - 1];
      }
    }
  }

  /** The contract of `RunCell`. */
  ghost predicate Meets(env: Env, scenario: Scenario, run: CellRun, messages: seq<Message>, rs: seq<Response>, cut: Option<Response>) {
    IsRunOf(env, scenario, run, messages, rs, cut) && EndedRight(env, scenario, run, rs, cut)
  }

  /** Provider, clock, tools and pass check determine the run, its ending and the conversation. */
  lemma RunIsDetermined(env: Env, scenario: Scenario,
                        run: CellRun, messages: seq<Message>, rs: seq<Response>, cut: Option<Response>,
                        run': CellRun, messages': seq<Message>, rs': seq<Response>, cut': Option<Response>)
    ensures Meets(env, scenario, run, messages, rs, cut) && Meets(env, scenario, run', messages', rs', cut')
      ==> run == run' && messages == messages' && rs == rs' && cut == cut'
  {
    hide IsRunOf, EndedRight;
    if Meets(env, scenario, run, messages, rs, cut) && Meets(env, scenario, run', messages', rs', cut') {
      SameResponses(env, scenario, run, messages, rs, cut, run', messages', rs', cut');
      SameOutcome(env, scenario, run, messages, run', messages', rs, cut);
    }
  }

  lemma SameResponses(env: Env, scenario: Scenario,
                      run: CellRun, messages: seq<Message>, rs: seq<Response>, cut: Option<Response>,
                      run': CellRun, messages': seq<Message>, rs': seq<Response>, cut': Option<Response>)
    ensures Meets(env, scenario, run, messages, rs, cut) && Meets(env, scenario, run', messages', rs', cut')
      ==> rs == rs' && cut == cut'
  {
    hide EndedRight, GoesOn, Received, Served, FaultOf, Messages, Trace;
    var all, all' := All(rs, cut), All(rs', cut');
    if Meets(env, scenario, run, messages, rs, cut) && Meets(env, scenario, run', messages', rs', cut') {
      StopsHere(env, scenario, run, messages, rs, cut);
      StopsHere(env, scenario, run', messages', rs', cut');
      if |all| < |all'| {
        WentOn(env, scenario, run', messages', rs', cut', |all|);
        ReceivedPrefix(env, |all'|, |all|);
      } else if |all'| < |all| {
        WentOn(env, scenario, run, messages, rs, cut, |all'|);
        ReceivedPrefix(env, |all|, |all'|);
      } else {
        assert rs == all[..|rs|] && rs' == all'[..|rs'|];
        assert cut.Some? ==> all[|rs|] == cut.value;
        assert cut'.Some? ==> all'[|rs'|] == cut'.value;
      }
    }
  }

  lemma SameOutcome(env: Env, scenario: Scenario, run: CellRun, messages: seq<Message>, run': CellRun, messages': seq<Message>,
                    rs: seq<Response>, cut: Option<Response>)
    ensures Meets(env, scenario, run, messages, rs, cut) && Meets(env, scenario, run', messages', rs, cut)
      ==> run == run' && messages == messages'
  {
    hide Received, Served, FaultOf, Messages, Trace, All, WantsMore, InTime, CallsOf, ToolUsesOf, BlocksOf, ComputeCosts, TotalTokens, LastText, Retry;
  }
}

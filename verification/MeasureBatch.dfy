/**
 One measurement pass: every scenario, n repeats each (`runPass`, `runScenarioTurn`,
 `failRun`, scripts/agent-efficiency/measure.ts; `groupByThread`,
 scripts/agent-efficiency/scenarios.ts).

 The engine is an arbitrary oracle: what it answers to each health probe, session
 request and turn is a parameter.
 */
module MeasureBatch {
  import opened Wrappers
  import opened Grouping
  import opened Lists

  datatype Scenario = Scenario(id: string, threadKey: string, prompt: string)

  datatype Usage = Usage(tokensIn: nat, tokensOut: nat, cacheRead: nat, cacheWrite: nat, costUsd: real)

  const ZERO_USAGE := Usage(0, 0, 0, 0, 0.0)

  datatype TurnRun = TurnRun(
    scenarioId: string, iteration: nat, ok: bool, error: Option<string>, usage: Usage, wallMs: nat, finalText: string)

  /** What the engine makes of one turn: the stream broke off, or it completed and reading the usage failed, found nothing, or worked. */
  datatype TurnReply =
    | NotCompleted(error: Option<string>, wallMs: nat)
    | UsageReadFailed(message: string, wallMs: nat)
    | NoUsage(wallMs: nat)
    | Completed(usage: Usage, finalText: string, wallMs: nat)

  /** The engine's answers, by repeat and thread; turns also by position in the thread. */
  datatype Engine = Engine(
    health: (nat, string) -> Option<string>,
    createSession: (nat, string) -> Result<string, string>,
    turn: (nat, string, nat) -> TurnReply)

  const UNHEALTHY := "engine unhealthy — did not recover within 180s"

  function FailRun(scenarioId: string, iteration: nat, error: string): TurnRun {
    TurnRun(scenarioId, iteration, false, Some(error), ZERO_USAGE, 0, "")
  }

  function RunScenarioTurn(reply: TurnReply, s: Scenario, iteration: nat): TurnRun {
    match reply
    case NotCompleted(e, ms) =>
      TurnRun(s.id, iteration, false, Some(if e.Some? then e.value else "run did not complete"), ZERO_USAGE, ms, "")
    case UsageReadFailed(m, ms) =>
      TurnRun(s.id, iteration, false, Some("usage read failed: " + m), ZERO_USAGE, ms, "")
    case NoUsage(ms) =>
      TurnRun(s.id, iteration, false, Some("run completed but no usage-stamped assistant message was found"), ZERO_USAGE, ms, "")
    case Completed(u, text, ms) => TurnRun(s.id, iteration, true, None, u, ms, text)
  }

  datatype ScenarioResult = ScenarioResult(scenarioId: string, runs: seq<TurnRun>, okCount: nat, totalCount: nat)

  function ThreadKey(s: Scenario): string { s.threadKey }

  function RunId(r: TurnRun): string { r.scenarioId }

  function OkRuns(runs: seq<TurnRun>): seq<TurnRun> {
    if runs == [] then []
    else var last := runs[|runs| - 1]; OkRuns(runs[..|runs| - 1]) + if last.ok then [last] else []
  }

  // ---------- What should be recorded ----------

  /** The run of scenario `s`, at place `pos` of thread `key`, in repeat `iter`. */
  function RunOf(e: Engine, iter: nat, key: string, s: Scenario, pos: nat): (run: TurnRun)
    ensures run.scenarioId == s.id && run.iteration == iter
  {
    if e.health(iter, key).None? then FailRun(s.id, iter, UNHEALTHY)
    else
      match e.createSession(iter, key)
      case Err(m) => FailRun(s.id, iter, "session create failed: " + m)
      case Ok(_) => RunScenarioTurn(e.turn(iter, key, pos), s, iter)
  }

  /** The runs of the first `m` members of a thread. */
  ghost function ThreadLog(e: Engine, iter: nat, key: string, group: seq<Scenario>, m: nat): seq<TurnRun>
    requires m <= |group|
  {
    if m == 0 then [] else ThreadLog(e, iter, key, group, m - 1) + [RunOf(e, iter, key, group[m - 1], m - 1)]
  }

  /** The runs of one repeat, over the given threads. */
  ghost function RepeatLog(e: Engine, iter: nat, scenarios: seq<Scenario>, keys: seq<string>): seq<TurnRun> {
    if keys == [] then []
    else
      var key := keys[|keys| - 1];
      var group := Select(scenarios, ThreadKey, key);
      RepeatLog(e, iter, scenarios, keys[..|keys| - 1]) + ThreadLog(e, iter, key, group, |group|)
  }

  /** Everything recorded in repeats 1 to `n`, in order. */
  ghost function PassLog(e: Engine, scenarios: seq<Scenario>, n: nat): seq<TurnRun> {
    if n == 0 then []
    else PassLog(e, scenarios, n - 1) + RepeatLog(e, n, scenarios, FirstSeen(scenarios, ThreadKey))
  }

  // ---------- The program ----------

  type RunsById = map<string, seq<TurnRun>>

  /** The per-scenario lists are the log, sorted apart by scenario. */
  ghost predicate Mirrors(runsById: RunsById, log: seq<TurnRun>) {
    forall id :: id in runsById ==> runsById[id] == Select(log, RunId, id)
  }

  lemma PushMirrors(runsById: RunsById, log: seq<TurnRun>, run: TurnRun)
    requires Mirrors(runsById, log) && run.scenarioId in runsById
    ensures Mirrors(runsById[run.scenarioId := runsById[run.scenarioId] + [run]], log + [run])
  {
    assert (log + [run])[..|log|] == log;
  }

  ghost predicate Knows(runsById: RunsById, scenarios: seq<Scenario>) {
    forall s :: s in scenarios ==> s.id in runsById
  }

  method RunThread(e: Engine, iter: nat, key: string, group: seq<Scenario>, runsById0: RunsById, ghost log: seq<TurnRun>)
    returns (runsById: RunsById)
    requires Mirrors(runsById0, log) && Knows(runsById0, group)
    ensures Mirrors(runsById, log + ThreadLog(e, iter, key, group, |group|)) && runsById.Keys == runsById0.Keys
  {
    runsById := runsById0;
    var healthy := e.health(iter, key);
    assert log + [] == log;
    if healthy.None? {
      for i := 0 to |group|
        invariant Mirrors(runsById, log + ThreadLog(e, iter, key, group, i)) && runsById.Keys == runsById0.Keys
      {
        var s := group[i];
        var run := FailRun(s.id, iter, UNHEALTHY);
        NextRun(e, iter, key, group, i, log, runsById);
        runsById := runsById[s.id := runsById[s.id] + [run]];
      }
      return;
    }
    var session := e.createSession(iter, key);
    if session.Err? {
      for i := 0 to |group|
        invariant Mirrors(runsById, log + ThreadLog(e, iter, key, group, i)) && runsById.Keys == runsById0.Keys
      {
        var s := group[i];
        var run := FailRun(s.id, iter, "session create failed: " + session.error);
        NextRun(e, iter, key, group, i, log, runsById);
        runsById := runsById[s.id := runsById[s.id] + [run]];
      }
      return;
    }
    for i := 0 to |group|
      invariant Mirrors(runsById, log + ThreadLog(e, iter, key, group, i)) && runsById.Keys == runsById0.Keys
    {
      var s := group[i];
      var run := RunScenarioTurn(e.turn(iter, key, i), s, iter);
      NextRun(e, iter, key, group, i, log, runsById);
      runsById := runsById[s.id := runsById[s.id] + [run]];
    }
  }

  lemma NextRun(e: Engine, iter: nat, key: string, group: seq<Scenario>, i: nat, log: seq<TurnRun>, runsById: RunsById)
    requires i < |group| && group[i].id in runsById && Mirrors(runsById, log + ThreadLog(e, iter, key, group, i))
    ensures var run := RunOf(e, iter, key, group[i], i);
      && run.scenarioId == group[i].id
      && Mirrors(runsById[group[i].id := runsById[group[i].id] + [run]], log + ThreadLog(e, iter, key, group, i + 1))
  {
    hide RunOf;
    var run := RunOf(e, iter, key, group[i], i);
    PushMirrors(runsById, log + ThreadLog(e, iter, key, group, i), run);
    assert log + ThreadLog(e, iter, key, group, i) + [run] == log + ThreadLog(e, iter, key, group, i + 1);
  }

  /** One repeat over all threads. */
  method RunRepeat(e: Engine, iter: nat, scenarios: seq<Scenario>, groups: Groups<string, Scenario>, runsById0: RunsById,
                   ghost log: seq<TurnRun>) returns (runsById: RunsById)
    requires IsGrouping(scenarios, ThreadKey, groups) && Mirrors(runsById0, log) && Knows(runsById0, scenarios)
    ensures Mirrors(runsById, log + RepeatLog(e, iter, scenarios, groups.order)) && runsById.Keys == runsById0.Keys
  {
    hide RunOf, Select, Mirrors;
    runsById := runsById0;
    assert log + [] == log;
    for j := 0 to |groups.order|
      invariant Mirrors(runsById, log + RepeatLog(e, iter, scenarios, groups.order[..j])) && runsById.Keys == runsById0.Keys
    {
      var key := groups.order[j];
      var group := groups.members[key];
      SelectMembers(scenarios, ThreadKey, key);
      NextThread(e, iter, scenarios, groups.order, j, log);
      runsById := RunThread(e, iter, key, group, runsById, log + RepeatLog(e, iter, scenarios, groups.order[..j]));
    }
    assert groups.order[..|groups.order|] == groups.order;
  }

  lemma NextThread(e: Engine, iter: nat, scenarios: seq<Scenario>, order: seq<string>, j: nat, log: seq<TurnRun>)
    requires j < |order|
    ensures var group := Select(scenarios, ThreadKey, order[j]);
      log + RepeatLog(e, iter, scenarios, order[..j]) + ThreadLog(e, iter, order[j], group, |group|)
      == log + RepeatLog(e, iter, scenarios, order[..j + 1])
  {
    hide RunOf, Select;
    assert order[..j + 1][..j] == order[..j];
  }

  method RunPass(e: Engine, scenarios: seq<Scenario>, n: nat) returns (results: seq<ScenarioResult>)
    ensures |results| == |scenarios|
    ensures forall i :: 0 <= i < |scenarios| ==> results[i] == ResultOf(e, scenarios, n, scenarios[i].id)
  {
    hide RunOf, Select;
    var groups := GroupBy(scenarios, ThreadKey);
    var runsById := NoRuns(scenarios);
    for iter := 1 to n + 1
      invariant Mirrors(runsById, PassLog(e, scenarios, iter - 1)) && Knows(runsById, scenarios)
    {
      runsById := RunRepeat(e, iter, scenarios, groups, runsById, PassLog(e, scenarios, iter - 1));
    }
    results := [];
    for i := 0 to |scenarios|
      invariant |results| == i
      invariant forall k :: 0 <= k < i ==> results[k] == ResultOf(e, scenarios, n, scenarios[k].id)
    {
      assert scenarios[i] in scenarios;
      var runs := runsById[scenarios[i].id];
      results := results + [ScenarioResult(scenarios[i].id, runs, |OkRuns(runs)|, |runs|)];
    }
  }

  /** The aggregate of one scenario: its part of the log and the counts. */
  ghost function ResultOf(e: Engine, scenarios: seq<Scenario>, n: nat, id: string): ScenarioResult {
    var runs := Select(PassLog(e, scenarios, n), RunId, id);
    ScenarioResult(id, runs, |OkRuns(runs)|, |runs|)
  }

  method NoRuns(scenarios: seq<Scenario>) returns (runsById: RunsById)
    ensures Mirrors(runsById, []) && Knows(runsById, scenarios)
  {
    runsById := map[];
    for i := 0 to |scenarios|
      invariant Mirrors(runsById, []) && Knows(runsById, scenarios[..i])
    {
      assert scenarios[..i + 1] == scenarios[..i] + [scenarios[i]];
      runsById := runsById[scenarios[i].id := []];
    }
    assert scenarios[..|scenarios|] == scenarios;
  }

  // ---------- Nothing lost, nothing counted twice ----------

  function IdOf(s: Scenario): string { s.id }

  ghost predicate DistinctIds(scenarios: seq<Scenario>) {
    DistinctBy(IdOf, scenarios)
  }

  lemma {:induction false} SelectDistinct(scenarios: seq<Scenario>, key: string)
    requires DistinctIds(scenarios)
    ensures DistinctIds(Select(scenarios, ThreadKey, key))
  {
    if scenarios != [] {
      var before := scenarios[..|scenarios| - 1];
      SelectDistinct(before, key);
      SelectMembers(before, ThreadKey, key);
      var kept := Select(before, ThreadKey, key);
      forall i | 0 <= i < |kept| ensures kept[i].id != scenarios[|scenarios| - 1].id {
        assert kept[i] in before;
      }
    }
  }

  lemma SelectPush(log: seq<TurnRun>, run: TurnRun, id: string)
    ensures Select(log + [run], RunId, id) == Select(log, RunId, id) + if run.scenarioId == id then [run] else []
  {
    assert (log + [run])[..|log|] == log;
  }

  lemma {:induction false} ThreadSelect(e: Engine, iter: nat, key: string, group: seq<Scenario>, m: nat, p: nat)
    requires m <= |group| && DistinctIds(group) && p < |group|
    ensures Select(ThreadLog(e, iter, key, group, m), RunId, group[p].id) ==
      if p < m then [RunOf(e, iter, key, group[p], p)] else []
  {
    hide RunOf, Select;
    if m == 0 {
      NothingSelected(group[p].id);
    } else {
      ThreadSelect(e, iter, key, group, m - 1, p);
      SelectPush(ThreadLog(e, iter, key, group, m - 1), RunOf(e, iter, key, group[m - 1], m - 1), group[p].id);
    }
  }

  lemma {:induction false} ThreadSelectOther(e: Engine, iter: nat, key: string, group: seq<Scenario>, m: nat, id: string)
    requires m <= |group| && forall i :: 0 <= i < |group| ==> group[i].id != id
    ensures Select(ThreadLog(e, iter, key, group, m), RunId, id) == []
  {
    hide RunOf, Select;
    if m == 0 {
      NothingSelected(id);
    } else {
      ThreadSelectOther(e, iter, key, group, m - 1, id);
      SelectPush(ThreadLog(e, iter, key, group, m - 1), RunOf(e, iter, key, group[m - 1], m - 1), id);
    }
  }

  /** The place of a scenario in its thread. */
  ghost predicate IsPlace(scenarios: seq<Scenario>, s: Scenario, p: nat) {
    var group := Select(scenarios, ThreadKey, s.threadKey);
    p < |group| && group[p] == s
  }

  /** A thread contributes the run of `s` if `s` belongs to it, and nothing of `s` otherwise. */
  lemma ThreadPart(e: Engine, iter: nat, scenarios: seq<Scenario>, key: string, s: Scenario, p: nat)
    requires DistinctIds(scenarios) && s in scenarios && IsPlace(scenarios, s, p)
    ensures var group := Select(scenarios, ThreadKey, key);
      Select(ThreadLog(e, iter, key, group, |group|), RunId, s.id) ==
      if key == s.threadKey then [RunOf(e, iter, s.threadKey, s, p)] else []
  {
    hide RunOf, Select;
    var group := Select(scenarios, ThreadKey, key);
    if key == s.threadKey {
      SelectDistinct(scenarios, key);
      ThreadSelect(e, iter, key, group, |group|, p);
    } else {
      SelectMembers(scenarios, ThreadKey, key);
      forall i | 0 <= i < |group| ensures group[i].id != s.id {
        assert group[i] in scenarios && group[i].threadKey == key;
      }
      ThreadSelectOther(e, iter, key, group, |group|, s.id);
    }
  }

  lemma {:induction false} RepeatSelect(e: Engine, iter: nat, scenarios: seq<Scenario>, keys: seq<string>, s: Scenario, p: nat)
    requires DistinctIds(scenarios) && s in scenarios && IsPlace(scenarios, s, p) && Distinct(keys)
    ensures Select(RepeatLog(e, iter, scenarios, keys), RunId, s.id) ==
      if s.threadKey in keys then [RunOf(e, iter, s.threadKey, s, p)] else []
  {
    hide RunOf, Select, ThreadLog, DistinctIds, IsPlace;
    if keys == [] {
      NothingSelected(s.id);
    } else {
      var rest, key := keys[..|keys| - 1], keys[|keys| - 1];
      var group := Select(scenarios, ThreadKey, key);
      RepeatSelect(e, iter, scenarios, rest, s, p);
      SelectAppend(RepeatLog(e, iter, scenarios, rest), ThreadLog(e, iter, key, group, |group|), RunId, s.id);
      assert keys == rest + [key];
      ThreadPart(e, iter, scenarios, key, s, p);
    }
  }

  lemma NothingSelected(id: string)
    ensures Select([], RunId, id) == []
  {
  }

  /** The run of a scenario in each of the repeats 1 to n. */
  ghost function RunsOf(e: Engine, s: Scenario, p: nat, n: nat): seq<TurnRun> {
    seq(n, i requires 0 <= i < n => RunOf(e, i + 1, s.threadKey, s, p))
  }

  /** With distinct ids, each scenario ends with one run per repeat, numbered 1 to n, whatever the engine answered. */
  lemma {:induction false} OneRunPerRepeat(e: Engine, scenarios: seq<Scenario>, n: nat, s: Scenario, p: nat)
    requires DistinctIds(scenarios) && s in scenarios && IsPlace(scenarios, s, p)
    ensures Select(PassLog(e, scenarios, n), RunId, s.id) == RunsOf(e, s, p, n)
    ensures |RunsOf(e, s, p, n)| == n && forall i :: 0 <= i < n ==> RunsOf(e, s, p, n)[i].iteration == i + 1
  {
    hide RunOf, Select, RepeatLog, DistinctIds, IsPlace, FirstSeen;
    if n == 0 {
      NothingSelected(s.id);
    } else {
      var order := FirstSeen(scenarios, ThreadKey);
      OneRunPerRepeat(e, scenarios, n - 1, s, p);
      FirstSeenDistinct(scenarios, ThreadKey);
      RepeatSelect(e, n, scenarios, order, s, p);
      SelectAppend(PassLog(e, scenarios, n - 1), RepeatLog(e, n, scenarios, order), RunId, s.id);
      assert RunsOf(e, s, p, n) == RunsOf(e, s, p, n - 1) + [RunOf(e, n, s.threadKey, s, p)];
    }
  }

  /** Every scenario has a place in its thread. */
  lemma HasPlace(scenarios: seq<Scenario>, s: Scenario)
    requires s in scenarios
    ensures exists p :: IsPlace(scenarios, s, p)
  {
    SelectMembers(scenarios, ThreadKey, s.threadKey);
    var group := Select(scenarios, ThreadKey, s.threadKey);
    var p :| 0 <= p < |group| && group[p] == s;
    assert IsPlace(scenarios, s, p);
  }

  /**
   A recorded run is good exactly when the engine was up, gave a session, finished the turn and
   reported usage, and then carries what the turn gave; any other has the error of the step that
   failed and no cost.
   */
  ghost predicate IsHonest(e: Engine, key: string, pos: nat, run: TurnRun) {
    var health, session, reply := e.health(run.iteration, key), e.createSession(run.iteration, key), e.turn(run.iteration, key, pos);
    && (run.ok <==> AllWell(e, run.iteration, key, pos))
    && (run.ok ==> run.error.None? && run.usage == reply.usage && run.finalText == reply.finalText && run.wallMs == reply.wallMs)
    && (!run.ok ==> run.error.Some? && run.usage == Usage(0, 0, 0, 0, 0.0) && run.finalText == "")
    && (health.None? ==> run.error == Some("engine unhealthy — did not recover within 180s") && run.wallMs == 0)
    && (health.Some? && session.Err? ==> run.error == Some("session create failed: " + session.error) && run.wallMs == 0)
    && (health.Some? && session.Ok? ==> run.wallMs == reply.wallMs)
    && (health.Some? && session.Ok? && reply.NotCompleted? ==>
          run.error == if reply.error.None? then Some("run did not complete") else reply.error)
    && (health.Some? && session.Ok? && reply.UsageReadFailed? ==> run.error == Some("usage read failed: " + reply.message))
    && (health.Some? && session.Ok? && reply.NoUsage? ==>
          run.error == Some("run completed but no usage-stamped assistant message was found"))
  }

  /** Engine, session, turn and usage of one run all worked. */
  ghost predicate AllWell(e: Engine, iter: nat, key: string, pos: nat) {
    e.health(iter, key).Some? && e.createSession(iter, key).Ok? && e.turn(iter, key, pos).Completed?
  }

  lemma OneRunIsHonest(e: Engine, iter: nat, s: Scenario, p: nat)
    ensures IsHonest(e, s.threadKey, p, RunOf(e, iter, s.threadKey, s, p))
  {
  }

  lemma RunsAreHonest(e: Engine, s: Scenario, p: nat, n: nat)
    ensures forall run :: run in RunsOf(e, s, p, n) ==> IsHonest(e, s.threadKey, p, run)
    ensures forall i :: 0 <= i < n ==> RunsOf(e, s, p, n)[i].scenarioId == s.id
  {
    hide RunOf, IsHonest;
    forall i: nat | i < n ensures IsHonest(e, s.threadKey, p, RunsOf(e, s, p, n)[i]) {
      OneRunIsHonest(e, i + 1, s, p);
    }
  }

  /** The places of the good runs. */
  ghost function Good(runs: seq<TurnRun>): set<nat> { set i: nat | i < |runs| && runs[i].ok }

  /** The aggregate of a scenario rests on exactly n runs, numbered 1 to n, each the honest run of that repeat. */
  lemma EveryScenarioComplete(e: Engine, scenarios: seq<Scenario>, n: nat, s: Scenario)
    requires DistinctIds(scenarios) && s in scenarios
    ensures var r := ResultOf(e, scenarios, n, s.id);
      && r.scenarioId == s.id && r.totalCount == |r.runs| == n
      && r.okCount == |Good(r.runs)| <= n
      && forall i :: 0 <= i < n ==> r.runs[i].scenarioId == s.id && r.runs[i].iteration == i + 1
    ensures exists p :: (
      && IsPlace(scenarios, s, p) && ResultOf(e, scenarios, n, s.id).runs == RunsOf(e, s, p, n)
      && forall run :: run in ResultOf(e, scenarios, n, s.id).runs ==> IsHonest(e, s.threadKey, p, run))
  {
    hide RunOf, Select, DistinctIds, OkRuns, Good, IsHonest, IsPlace, RunsOf;
    HasPlace(scenarios, s);
    var p :| IsPlace(scenarios, s, p);
    OneRunPerRepeat(e, scenarios, n, s, p);
    RunsAreHonest(e, s, p, n);
    OkRunsCount(RunsOf(e, s, p, n));
  }

  lemma {:induction false} OkRunsCount(runs: seq<TurnRun>)
    ensures |OkRuns(runs)| == |Good(runs)| <= |runs|
  {
    if runs == [] {
      assert Good(runs) == {};
    } else {
      var n := |runs| - 1;
      OkRunsCount(runs[..n]);
      assert forall i :: 0 <= i < n ==> runs[..n][i] == runs[i];
      assert Good(runs) == Good(runs[..n]) + if runs[n].ok then {n} else {};
    }
  }

  lemma {:induction false} ThreadLogSize(e: Engine, iter: nat, key: string, group: seq<Scenario>, m: nat)
    requires m <= |group|
    ensures |ThreadLog(e, iter, key, group, m)| == m
  {
    if m > 0 {
      ThreadLogSize(e, iter, key, group, m - 1);
    }
  }

  ghost function One(): Scenario -> real { (s: Scenario) => 1.0 }

  lemma {:induction false} SumOnes(scenarios: seq<Scenario>)
    ensures Sum(scenarios, One()) == |scenarios| as real
  {
    if scenarios != [] {
      SumOnes(scenarios[..|scenarios| - 1]);
    }
  }

  lemma {:induction false} RepeatLogSize(e: Engine, iter: nat, scenarios: seq<Scenario>, keys: seq<string>)
    ensures |RepeatLog(e, iter, scenarios, keys)| as real == GroupSum(keys, scenarios, ThreadKey, One())
  {
    if keys != [] {
      var group := Select(scenarios, ThreadKey, keys[|keys| - 1]);
      RepeatLogSize(e, iter, scenarios, keys[..|keys| - 1]);
      ThreadLogSize(e, iter, keys[|keys| - 1], group, |group|);
      SumOnes(group);
    }
  }

  /** Distinct ids or not, every repeat records exactly one run per listed scenario. */
  lemma RepeatIsComplete(e: Engine, iter: nat, scenarios: seq<Scenario>)
    ensures |RepeatLog(e, iter, scenarios, FirstSeen(scenarios, ThreadKey))| == |scenarios|
  {
    var order := FirstSeen(scenarios, ThreadKey);
    FirstSeenDistinct(scenarios, ThreadKey);
    RepeatLogSize(e, iter, scenarios, order);
    GroupsConserve(order, scenarios, ThreadKey, One());
    SumSame(scenarios, Listed(order, ThreadKey, One()), One());
    SumOnes(scenarios);
  }
}

/**
 The phase layout of a pipeline (`DagVisualizer`, src/cli/dag-visualizer.ts).

 `ComputePhases` repeats one round: take every remaining step whose inputs are all
 resolved.  The theorems say what the rounds amount to: the longest-path layering of
 the steps that can run, leaving out exactly those stuck behind a cycle or an
 unknown input.
 */
module DagPhases {
  import opened Lists
  import opened Wrappers

  datatype Step = Step(id: string, inputFrom: Option<seq<string>>)

  datatype StepStatus = Pending | Running | Done | Failed | Skipped | Cached

  function Inputs(s: Step): seq<string> {
    if s.inputFrom.Some? then s.inputFrom.value else []
  }

  predicate IsReady(s: Step, resolved: set<string>) {
    forall x :: x in Inputs(s) ==> x in resolved
  }

  function ReadySteps(steps: seq<Step>, resolved: set<string>): seq<Step> {
    if steps == [] then []
    else (if IsReady(steps[0], resolved) then [steps[0]] else []) + ReadySteps(steps[1..], resolved)
  }

  lemma {:induction false} ReadyMembers(steps: seq<Step>, resolved: set<string>)
    ensures forall s :: s in ReadySteps(steps, resolved) <==> s in steps && IsReady(s, resolved)
  {
    if steps != [] {
      ReadyMembers(steps[1..], resolved);
    }
  }

  function RemainingSteps(steps: seq<Step>, resolved: set<string>): seq<Step> {
    if steps == [] then []
    else (if steps[0].id in resolved then [] else [steps[0]]) + RemainingSteps(steps[1..], resolved)
  }

  lemma {:induction false} RemainingMembers(steps: seq<Step>, resolved: set<string>)
    ensures forall s :: s in RemainingSteps(steps, resolved) <==> s in steps && s.id !in resolved
  {
    if steps != [] {
      RemainingMembers(steps[1..], resolved);
    }
  }

  lemma {:induction false} RemainingShrinks(steps: seq<Step>, resolved: set<string>)
    ensures |RemainingSteps(steps, resolved)| <= |steps|
    ensures (exists s :: s in steps && s.id in resolved) ==> |RemainingSteps(steps, resolved)| < |steps|
  {
    if steps != [] {
      RemainingShrinks(steps[1..], resolved);
    }
  }

  function Ids(steps: seq<Step>): seq<string> {
    seq(|steps|, i requires 0 <= i < |steps| => steps[i].id)
  }

  function IdSet(ids: seq<string>): set<string> {
    set id | id in ids
  }

  /** The ids placed in any of the phases. */
  function Placed(phases: seq<seq<string>>): set<string> {
    if phases == [] then {}
    else Placed(phases[..|phases| - 1]) + IdSet(phases[|phases| - 1])
  }

  // ---------- What a run of the rounds is ----------

  /** The round after `phases`: the steps, in order, that are not placed and whose inputs are. */
  ghost function NextRound(steps: seq<Step>, phases: seq<seq<string>>): seq<string> {
    Ids(ReadySteps(RemainingSteps(steps, Placed(phases)), Placed(phases)))
  }

  /** Every phase is the round after the phases before it, and is not empty. */
  ghost predicate RunSoFar(steps: seq<Step>, phases: seq<seq<string>>) {
    phases == [] ||
    var before, last := phases[..|phases| - 1], phases[|phases| - 1];
    RunSoFar(steps, before) && last == NextRound(steps, before) && last != []
  }

  /** Rounds until one comes out empty. */
  ghost predicate IsRun(steps: seq<Step>, phases: seq<seq<string>>) {
    RunSoFar(steps, phases) && NextRound(steps, phases) == []
  }

  class DagVisualizer {
    const steps: seq<Step>
    var phases: seq<seq<string>>
    var statuses: map<string, StepStatus>

    /** The phases are those of the steps, and every step has a status. */
    ghost predicate Valid()
      reads this
    {
      IsRun(steps, phases) && IdSet(Ids(steps)) <= statuses.Keys
    }

    constructor (steps: seq<Step>)
      ensures this.steps == steps && Valid()
      ensures IsRun(steps, phases)
      ensures statuses.Keys == IdSet(Ids(steps)) && forall id :: id in statuses ==> statuses[id] == Pending
    {
      this.steps := steps;
      this.phases, statuses := [], map[];
      new;
      for i := 0 to |steps|
        invariant statuses.Keys == IdSet(Ids(steps)[..i]) && forall id :: id in statuses ==> statuses[id] == Pending
      {
        statuses := statuses[steps[i].id := Pending];
        IdSetAppend(Ids(steps)[..i], steps[i].id);
        assert Ids(steps)[..i + 1] == Ids(steps)[..i] + [steps[i].id];
      }
      assert Ids(steps)[..|steps|] == Ids(steps);
      phases := ComputePhases();
    }

    method ComputePhases() returns (phases: seq<seq<string>>)
      ensures IsRun(steps, phases)
    {
      phases := [];
      var resolved: set<string> := {};
      var remaining := steps;
      RemainingAll(steps);
      while |remaining| > 0
        invariant resolved == Placed(phases) && remaining == RemainingSteps(steps, resolved)
        invariant RunSoFar(steps, phases)
        decreases |remaining|
      {
        var ready := ReadySteps(remaining, resolved);
        if |ready| == 0 { break; }
        OneRound(steps, phases);
        phases := phases + [Ids(ready)];
        resolved := resolved + IdSet(Ids(ready));
        remaining := RemainingSteps(remaining, resolved);
      }
    }

    method UpdateStatus(stepId: string, status: StepStatus)
      requires Valid()
      modifies `statuses
      ensures Valid() && statuses == old(statuses)[stepId := status]
    {
      statuses := statuses[stepId := status];
    }
  }

  lemma {:induction false} RemainingAll(steps: seq<Step>)
    ensures RemainingSteps(steps, {}) == steps
  {
    if steps != [] {
      RemainingAll(steps[1..]);
    }
  }

  lemma {:induction false} RemainingTwice(steps: seq<Step>, r: set<string>, r': set<string>)
    requires r <= r'
    ensures RemainingSteps(RemainingSteps(steps, r), r') == RemainingSteps(steps, r')
  {
    if steps != [] {
      RemainingTwice(steps[1..], r, r');
      var rest := RemainingSteps(steps[1..], r);
      if steps[0].id !in r {
        assert RemainingSteps(steps, r) == [steps[0]] + rest;
        assert ([steps[0]] + rest)[1..] == rest;
      } else {
        assert RemainingSteps(steps, r) == rest;
      }
    }
  }

  lemma PlacedAppend(phases: seq<seq<string>>, ids: seq<string>)
    ensures Placed(phases + [ids]) == Placed(phases) + IdSet(ids)
  {
    assert (phases + [ids])[..|phases|] == phases;
  }

  /** A round that finds something extends the run and shrinks what remains. */
  lemma {:induction false} OneRound(steps: seq<Step>, phases: seq<seq<string>>)
    requires RunSoFar(steps, phases) && NextRound(steps, phases) != []
    ensures var ids := NextRound(steps, phases); var resolved := Placed(phases) + IdSet(ids);
      && RunSoFar(steps, phases + [ids])
      && Placed(phases + [ids]) == resolved
      && RemainingSteps(RemainingSteps(steps, Placed(phases)), resolved) == RemainingSteps(steps, resolved)
      && |RemainingSteps(steps, resolved)| < |RemainingSteps(steps, Placed(phases))|
  {
    var ids, before := NextRound(steps, phases), Placed(phases);
    var remaining := RemainingSteps(steps, before);
    PlacedAppend(phases, ids);
    assert (phases + [ids])[..|phases|] == phases;
    RemainingTwice(steps, before, before + IdSet(ids));
    ReadyMembers(remaining, before);
    var first := ReadySteps(remaining, before)[0];
    assert first in remaining && first.id == ids[0];
    RemainingShrinks(remaining, before + IdSet(ids));
  }

  lemma {:induction false} PhaseAt(steps: seq<Step>, phases: seq<seq<string>>, k: nat)
    requires RunSoFar(steps, phases) && k < |phases|
    ensures phases[k] == NextRound(steps, phases[..k]) && phases[k] != []
  {
    var before := phases[..|phases| - 1];
    if k < |phases| - 1 {
      PhaseAt(steps, before, k);
      assert before[..k] == phases[..k];
    }
  }

  // ---------- Which id lands in which phase, for any step list ----------

  /** `id` can be resolved in rounds 0..n: some step of that id has inputs resolved before round n. */
  ghost predicate Derivable(steps: seq<Step>, id: string, n: nat)
    decreases n, 1
  {
    exists s :: s in steps && s.id == id && InputsDerivable(steps, s, n)
  }

  ghost predicate InputsDerivable(steps: seq<Step>, s: Step, n: nat)
    decreases n, 0
  {
    forall x :: x in Inputs(s) ==> n > 0 && Derivable(steps, x, n - 1)
  }

  lemma PlacedPrefix(phases: seq<seq<string>>, k: nat)
    requires k < |phases|
    ensures Placed(phases[..k + 1]) == Placed(phases[..k]) + IdSet(phases[k])
  {
    PlacedAppend(phases[..k], phases[k]);
    assert phases[..k + 1] == phases[..k] + [phases[k]];
  }

  lemma InRound(steps: seq<Step>, phases: seq<seq<string>>, id: string)
    ensures id in NextRound(steps, phases) <==>
      exists s :: s in steps && s.id == id && id !in Placed(phases) && IsReady(s, Placed(phases))
  {
    var ready := ReadySteps(RemainingSteps(steps, Placed(phases)), Placed(phases));
    RemainingMembers(steps, Placed(phases));
    ReadyMembers(RemainingSteps(steps, Placed(phases)), Placed(phases));
    if id in NextRound(steps, phases) {
      var i :| 0 <= i < |ready| && Ids(ready)[i] == id;
      assert ready[i] in ready;
    }
    if s :| s in steps && s.id == id && id !in Placed(phases) && IsReady(s, Placed(phases)) {
      assert s in ready;
      var i :| 0 <= i < |ready| && ready[i] == s;
      assert Ids(ready)[i] == id;
    }
  }

  /** Phase k holds exactly the ids that have a ready step then and no place yet. */
  lemma InPhase(steps: seq<Step>, phases: seq<seq<string>>, k: nat, id: string)
    requires IsRun(steps, phases) && k < |phases|
    ensures id in phases[k] <==>
      exists s :: s in steps && s.id == id && id !in Placed(phases[..k]) && IsReady(s, Placed(phases[..k]))
  {
    PhaseAt(steps, phases, k);
    InRound(steps, phases[..k], id);
  }

  /** Whatever is placed by round k is exactly what had a ready step by round k. */
  lemma {:induction false} PlacedIffReady(steps: seq<Step>, phases: seq<seq<string>>, k: nat, id: string)
    requires IsRun(steps, phases) && k <= |phases|
    ensures id in Placed(if k < |phases| then phases[..k + 1] else phases) <==>
      exists s :: s in steps && s.id == id && IsReady(s, Placed(phases[..k]))
    decreases k
  {
    assert phases[..|phases|] == phases;
    InRound(steps, phases[..k], id);
    if k < |phases| {
      PhaseAt(steps, phases, k);
      PlacedPrefix(phases, k);
    }
    if k > 0 && id in Placed(phases[..k]) {
      PlacedIffReady(steps, phases, k - 1, id);
      PlacedPrefix(phases, k - 1);
    } else if k == 0 {
      assert phases[..0] == [];
    }
  }

  lemma {:induction false} DerivableIffPlaced(steps: seq<Step>, phases: seq<seq<string>>, id: string, n: nat)
    requires IsRun(steps, phases)
    ensures Derivable(steps, id, n) <==> id in Placed(if n < |phases| then phases[..n + 1] else phases)
    decreases n
  {
    var k := if n <= |phases| then n else |phases|;
    assert phases[..|phases|] == phases;
    PlacedIffReady(steps, phases, k, id);
    forall s | s in steps ensures InputsDerivable(steps, s, n) <==> IsReady(s, Placed(phases[..k])) {
      forall x | x in Inputs(s)
        ensures (n > 0 && Derivable(steps, x, n - 1)) <==> x in Placed(phases[..k])
      {
        if n > 0 {
          DerivableIffPlaced(steps, phases, x, n - 1);
        } else {
          assert phases[..0] == [] && Placed(phases[..0]) == {};
        }
      }
      DerivableInputs(steps, s, n, Placed(phases[..k]));
    }
  }

  lemma DerivableInputs(steps: seq<Step>, s: Step, n: nat, placed: set<string>)
    requires forall x :: x in Inputs(s) ==> ((n > 0 && Derivable(steps, x, n - 1)) <==> x in placed)
    ensures InputsDerivable(steps, s, n) <==> IsReady(s, placed)
  {
  }

  /** An id sits in phase k exactly when k is the first round that can derive it. */
  lemma PhaseIsHeight(steps: seq<Step>, phases: seq<seq<string>>, k: nat, id: string)
    requires IsRun(steps, phases) && k < |phases|
    ensures id in phases[k] <==> Derivable(steps, id, k) && (k == 0 || !Derivable(steps, id, k - 1))
  {
    DerivableIffPlaced(steps, phases, id, k);
    PlacedPrefix(phases, k);
    InPhase(steps, phases, k, id);
    if k == 0 {
      assert phases[..0] == [] && Placed(phases[..0]) == {};
    } else {
      DerivableIffPlaced(steps, phases, id, k - 1);
      assert Derivable(steps, id, k - 1) <==> id in Placed(phases[..k]);
    }
  }

  /** An id is placed at all exactly when some round can derive it. */
  lemma PlacedIffDerivable(steps: seq<Step>, phases: seq<seq<string>>, id: string)
    requires IsRun(steps, phases)
    ensures id in Placed(phases) <==> exists n: nat :: Derivable(steps, id, n)
  {
    DerivableIffPlaced(steps, phases, id, |phases|);
    if n: nat :| Derivable(steps, id, n) {
      DerivableIffPlaced(steps, phases, id, n);
      if n < |phases| {
        var k := PhaseOfPlaced(phases[..n + 1], id);
        PlacedFrom(phases, k, id);
      }
    }
  }

  // ---------- Distinct ids: longest paths, and who is left out ----------

  function IdOf(s: Step): string { s.id }

  ghost predicate DistinctIds(steps: seq<Step>) {
    DistinctBy(IdOf, steps)
  }

  /** `to` is an input of a step named `from`. */
  ghost predicate Needs(steps: seq<Step>, from: string, to: string) {
    exists s :: s in steps && s.id == from && s.inputFrom.Some? && to in s.inputFrom.value
  }

  /** A walk along input_from. */
  ghost predicate IsChain(steps: seq<Step>, c: seq<string>) {
    c != [] && forall i :: 0 <= i < |c| - 1 ==> Needs(steps, c[i], c[i + 1])
  }

  ghost predicate IsKnown(steps: seq<Step>, id: string) {
    exists s :: s in steps && s.id == id
  }

  /** Following input_from from `id` can reach an unknown id or come back to an id it has passed. */
  ghost predicate Blocked(steps: seq<Step>, id: string) {
    exists c: seq<string> :: IsChain(steps, c) && c[0] == id && DeadEnd(steps, c)
  }

  ghost predicate DeadEnd(steps: seq<Step>, c: seq<string>)
    requires c != []
  {
    !IsKnown(steps, c[|c| - 1]) || c[|c| - 1] in c[..|c| - 1]
  }

  lemma {:induction false} PhaseOfPlaced(phases: seq<seq<string>>, id: string) returns (k: nat)
    requires id in Placed(phases)
    ensures k < |phases| && id in phases[k]
  {
    k := |phases| - 1;
    if id !in phases[k] {
      k := PhaseOfPlaced(phases[..|phases| - 1], id);
    }
  }

  lemma {:induction false} PlacedFrom(phases: seq<seq<string>>, k: nat, id: string)
    requires k < |phases| && id in phases[k]
    ensures id in Placed(phases)
  {
    if k < |phases| - 1 {
      PlacedFrom(phases[..|phases| - 1], k, id);
    }
  }

  lemma OneStepOfId(steps: seq<Step>, s: Step, t: Step)
    requires DistinctIds(steps) && s in steps && t in steps && s.id == t.id
    ensures s == t
  {
    var i, j :| 0 <= i < |steps| && steps[i] == s && 0 <= j < |steps| && steps[j] == t;
  }

  /** With distinct ids, every input of a placed step was placed in an earlier phase. */
  lemma InputsEarlier(steps: seq<Step>, phases: seq<seq<string>>, k: nat, id: string, to: string) returns (l: nat)
    requires IsRun(steps, phases) && DistinctIds(steps)
    requires k < |phases| && id in phases[k] && Needs(steps, id, to)
    ensures l < k && to in phases[l]
  {
    hide IsRun, Placed, DistinctIds;
    InPhase(steps, phases, k, id);
    var s :| s in steps && s.id == id && IsReady(s, Placed(phases[..k]));
    var t :| t in steps && t.id == id && to in Inputs(t);
    OneStepOfId(steps, s, t);
    l := PhaseOfPlaced(phases[..k], to);
  }

  /** An input that kept `id` waiting until phase k sits in phase k - 1. */
  lemma InputJustBefore(steps: seq<Step>, phases: seq<seq<string>>, k: nat, id: string) returns (to: string)
    requires IsRun(steps, phases) && 0 < k < |phases| && id in phases[k]
    ensures Needs(steps, id, to) && to in phases[k - 1]
  {
    hide IsRun, Placed;
    InPhase(steps, phases, k, id);
    var s :| s in steps && s.id == id && IsReady(s, Placed(phases[..k]));
    PlacedIffReady(steps, phases, k - 1, id);
    PlacedPrefix(phases, k - 1);
    to :| to in Inputs(s) && to !in Placed(phases[..k - 1]);
  }

  /** No chain from an id of phase k is longer than k + 1, and none dead-ends. */
  lemma {:induction false} ChainsFit(steps: seq<Step>, phases: seq<seq<string>>, k: nat, c: seq<string>)
    requires IsRun(steps, phases) && DistinctIds(steps)
    requires k < |phases| && IsChain(steps, c) && c[0] in phases[k]
    ensures |c| <= k + 1 && IsKnown(steps, c[|c| - 1])
    ensures forall i :: 0 < i < |c| ==> exists l :: 0 <= l < k && c[i] in phases[l]
    decreases |c|
  {
    if |c| == 1 {
      InPhase(steps, phases, k, c[0]);
    } else {
      assert Needs(steps, c[0], c[1]);
      var l := InputsEarlier(steps, phases, k, c[0], c[1]);
      forall i | 0 <= i < |c[1..]| - 1 ensures Needs(steps, c[1..][i], c[1..][i + 1]) {
        assert Needs(steps, c[i + 1], c[i + 2]);
      }
      ChainsFit(steps, phases, l, c[1..]);
      forall i | 0 < i < |c| ensures exists l :: 0 <= l < k && c[i] in phases[l] {
        assert c[i] == c[1..][i - 1];
      }
    }
  }

  lemma {:induction false} LongChain(steps: seq<Step>, phases: seq<seq<string>>, k: nat, id: string) returns (c: seq<string>)
    requires IsRun(steps, phases) && k < |phases| && id in phases[k]
    ensures IsChain(steps, c) && c[0] == id && |c| == k + 1
  {
    if k == 0 {
      c := [id];
    } else {
      var to := InputJustBefore(steps, phases, k, id);
      var rest := LongChain(steps, phases, k - 1, to);
      c := [id] + rest;
      forall i | 0 <= i < |c| - 1 ensures Needs(steps, c[i], c[i + 1]) {
        if i > 0 {
          assert Needs(steps, rest[i - 1], rest[i]);
        }
      }
    }
  }

  /** The phase of a placed step is the length of its longest chain of inputs. */
  lemma PhaseIsLongestChain(steps: seq<Step>, phases: seq<seq<string>>, k: nat, id: string)
    requires IsRun(steps, phases) && DistinctIds(steps) && k < |phases| && id in phases[k]
    ensures exists c :: IsChain(steps, c) && c[0] == id && |c| == k + 1
    ensures forall c :: IsChain(steps, c) && c[0] == id ==> |c| <= k + 1
  {
    var c := LongChain(steps, phases, k, id);
    forall c | IsChain(steps, c) && c[0] == id ensures |c| <= k + 1 {
      ChainsFit(steps, phases, k, c);
    }
  }

  /** Any numbering that puts inputs before the steps that need them gives phase k at least k. */
  lemma {:induction false} LayeringAtLeast(steps: seq<Step>, phases: seq<seq<string>>, f: string -> nat, k: nat, id: string)
    requires IsRun(steps, phases) && k < |phases| && id in phases[k]
    requires forall from, to :: from in Placed(phases) && Needs(steps, from, to) ==> f(to) < f(from)
    ensures f(id) >= k
  {
    if k > 0 {
      var to := InputJustBefore(steps, phases, k, id);
      LayeringAtLeast(steps, phases, f, k - 1, to);
      PlacedFrom(phases, k, id);
    }
  }

  /** No such numbering gets by with fewer phases. */
  lemma {:induction false} NoShorterLayering(steps: seq<Step>, phases: seq<seq<string>>, f: string -> nat, count: nat)
    requires IsRun(steps, phases)
    requires forall from, to :: from in Placed(phases) && Needs(steps, from, to) ==> f(to) < f(from)
    requires forall id :: id in Placed(phases) ==> f(id) < count
    ensures |phases| <= count
  {
    if phases != [] {
      var k := |phases| - 1;
      PhaseAt(steps, phases, k);
      PlacedFrom(phases, k, phases[k][0]);
      LayeringAtLeast(steps, phases, f, k, phases[k][0]);
    }
  }

  /** An unplaced step has an unplaced input. */
  lemma UnplacedInput(steps: seq<Step>, phases: seq<seq<string>>, id: string) returns (to: string)
    requires IsRun(steps, phases) && IsKnown(steps, id) && id !in Placed(phases)
    ensures Needs(steps, id, to) && to !in Placed(phases)
  {
    assert phases[..|phases|] == phases;
    var s :| s in steps && s.id == id;
    PlacedIffReady(steps, phases, |phases|, id);
    to :| to in Inputs(s) && to !in Placed(phases);
  }

  lemma ChainAppend(steps: seq<Step>, c: seq<string>, to: string)
    requires IsChain(steps, c) && Needs(steps, c[|c| - 1], to)
    ensures IsChain(steps, c + [to])
  {
    var c' := c + [to];
    forall j | 0 <= j < |c'| - 1 ensures Needs(steps, c'[j], c'[j + 1]) {
      if j < |c| - 1 {
        assert Needs(steps, c[j], c[j + 1]);
      }
    }
  }

  /** Every chain of distinct unplaced ids can be prolonged until it dead-ends. */
  lemma {:induction false} UnplacedIsBlocked(steps: seq<Step>, phases: seq<seq<string>>, c: seq<string>)
    requires IsRun(steps, phases) && c != [] && IsChain(steps, c)
    requires IsKnown(steps, c[|c| - 1]) && c[|c| - 1] !in Placed(phases)
    ensures Blocked(steps, c[0])
    decreases |IdSet(Ids(steps)) - IdSet(c)|
  {
    var to := UnplacedInput(steps, phases, c[|c| - 1]);
    ChainAppend(steps, c, to);
    var c' := c + [to];
    assert c'[..|c|] == c;
    if IsKnown(steps, to) && to !in c {
      IdIsListed(steps, to);
      IdSetAppend(c, to);
      StrictSubsetSmaller(IdSet(Ids(steps)) - IdSet(c'), IdSet(Ids(steps)) - IdSet(c), to);
      UnplacedIsBlocked(steps, phases, c');
    } else {
      assert DeadEnd(steps, c');
    }
  }

  lemma IdSetAppend(c: seq<string>, id: string)
    ensures IdSet(c + [id]) == IdSet(c) + {id}
  {
    assert (c + [id])[|c|] == id;
    forall x | x in c ensures x in c + [id] {
      var j :| 0 <= j < |c| && c[j] == x;
      assert (c + [id])[j] == x;
    }
  }

  lemma IdIsListed(steps: seq<Step>, id: string)
    requires IsKnown(steps, id)
    ensures id in IdSet(Ids(steps))
  {
    var s :| s in steps && s.id == id;
    var i :| 0 <= i < |steps| && steps[i] == s;
    assert Ids(steps)[i] == id;
  }

  lemma StrictSubsetSmaller<T>(a: set<T>, b: set<T>, x: T)
    requires a <= b && x in b && x !in a
    ensures |a| < |b|
  {
    assert b == a + (b - a) && x in b - a;
  }

  /** The steps left out are exactly those stuck behind a cycle or an unknown input. */
  lemma LeftOutIffBlocked(steps: seq<Step>, phases: seq<seq<string>>, s: Step)
    requires IsRun(steps, phases) && DistinctIds(steps) && s in steps
    ensures s.id !in Placed(phases) <==> Blocked(steps, s.id)
  {
    if s.id !in Placed(phases) {
      UnplacedIsBlocked(steps, phases, [s.id]);
    } else {
      forall c: seq<string> | IsChain(steps, c) && c[0] == s.id ensures !DeadEnd(steps, c) {
        NoDeadEnd(steps, phases, c);
      }
    }
  }

  lemma NoDeadEnd(steps: seq<Step>, phases: seq<seq<string>>, c: seq<string>)
    requires IsRun(steps, phases) && DistinctIds(steps) && IsChain(steps, c) && c[0] in Placed(phases)
    ensures !DeadEnd(steps, c)
  {
    var k := PhaseOfPlaced(phases, c[0]);
    ChainsFit(steps, phases, k, c);
    var last := c[|c| - 1];
    if last in c[..|c| - 1] {
      var i :| 0 <= i < |c| - 1 && c[i] == last;
      var l: nat := k;
      if i > 0 {
        l :| 0 <= l < k && c[i] in phases[l];
      }
      ChainTail(steps, c, i);
      ChainsFit(steps, phases, l, c[i..]);
      assert c[i..][|c| - 1 - i] == last;
      var m :| 0 <= m < l && last in phases[m];
      OnePhaseOnly(steps, phases, m, l, last);
    }
  }

  lemma ChainTail(steps: seq<Step>, c: seq<string>, i: nat)
    requires IsChain(steps, c) && i < |c|
    ensures IsChain(steps, c[i..])
  {
    forall j | 0 <= j < |c[i..]| - 1 ensures Needs(steps, c[i..][j], c[i..][j + 1]) {
      assert Needs(steps, c[i + j], c[i + j + 1]);
    }
  }

  lemma OnePhaseOnly(steps: seq<Step>, phases: seq<seq<string>>, k: nat, l: nat, id: string)
    requires IsRun(steps, phases) && k < l < |phases| && id in phases[k]
    ensures id !in phases[l]
  {
    InPhase(steps, phases, l, id);
    PlacedFrom(phases[..l], k, id);
  }

  lemma {:induction false} ReadyDistinct(steps: seq<Step>, a: set<string>, b: set<string>)
    requires DistinctIds(steps)
    ensures DistinctIds(RemainingSteps(steps, a)) && DistinctIds(ReadySteps(steps, b))
  {
    if steps != [] {
      ReadyDistinct(steps[1..], a, b);
      RemainingMembers(steps[1..], a);
      ReadyMembers(steps[1..], b);
      forall s | s in steps[1..] ensures s.id != steps[0].id {
        var i :| 0 <= i < |steps[1..]| && steps[1..][i] == s;
        assert steps[i + 1] == s;
      }
      HeadDistinct(steps[0], RemainingSteps(steps[1..], a), steps[1..]);
      HeadDistinct(steps[0], ReadySteps(steps[1..], b), steps[1..]);
    }
  }

  lemma HeadDistinct(s: Step, rest: seq<Step>, all: seq<Step>)
    requires DistinctIds(rest) && (forall t :: t in rest ==> t in all) && forall t :: t in all ==> t.id != s.id
    ensures DistinctIds([s] + rest)
  {
  }

  /** With distinct ids, no step is placed twice. */
  lemma PlacedOnce(steps: seq<Step>, phases: seq<seq<string>>, k: nat, i: nat, l: nat, j: nat)
    requires IsRun(steps, phases) && DistinctIds(steps)
    requires k < |phases| && i < |phases[k]| && l < |phases| && j < |phases[l]|
    requires phases[k][i] == phases[l][j]
    ensures k == l && i == j
  {
    if k != l {
      OnePhaseOnly(steps, phases, if k < l then k else l, if k < l then l else k, phases[k][i]);
    } else {
      var resolved := Placed(phases[..k]);
      PhaseAt(steps, phases, k);
      ReadyDistinct(steps, resolved, {});
      ReadyDistinct(RemainingSteps(steps, resolved), {}, resolved);
    }
  }

  lemma {:induction false} ReadyInOrder(steps: seq<Step>, resolved: set<string>) returns (at: seq<nat>)
    ensures IsPart(at, |steps|) && ReadySteps(steps, resolved) == Pick(steps, at)
  {
    if steps == [] {
      at := [];
    } else {
      at := ReadyInOrder(steps[1..], resolved);
      assert steps == [steps[0]] + steps[1..];
      at := KeepCons(steps[0], steps[1..], at, IsReady(steps[0], resolved));
    }
  }

  lemma {:induction false} RemainingInOrder(steps: seq<Step>, resolved: set<string>) returns (at: seq<nat>)
    ensures IsPart(at, |steps|) && RemainingSteps(steps, resolved) == Pick(steps, at)
  {
    if steps == [] {
      at := [];
    } else {
      at := RemainingInOrder(steps[1..], resolved);
      assert steps == [steps[0]] + steps[1..];
      at := KeepCons(steps[0], steps[1..], at, steps[0].id !in resolved);
    }
  }

  /** Within a phase the ids stand in the order of the step list. */
  lemma PhaseInOrder(steps: seq<Step>, phases: seq<seq<string>>, k: nat) returns (at: seq<nat>)
    requires IsRun(steps, phases) && k < |phases|
    ensures IsPart(at, |steps|) && |phases[k]| == |at| && forall i :: 0 <= i < |at| ==> phases[k][i] == steps[at[i]].id
  {
    hide ReadySteps, RemainingSteps, Placed, IsPart;
    var placed := Placed(phases[..k]);
    PhaseAt(steps, phases, k);
    var left := RemainingInOrder(steps, placed);
    var ready := ReadyInOrder(Pick(steps, left), placed);
    PickPick(steps, left, ready);
    at := Pick(left, ready);
  }

  // ---------- Exactly when left out means stuck ----------

  /** The rounds can always be run to their end. */
  lemma {:induction false} RunExists(steps: seq<Step>, phases: seq<seq<string>>) returns (full: seq<seq<string>>)
    requires RunSoFar(steps, phases)
    ensures IsRun(steps, full)
    decreases |RemainingSteps(steps, Placed(phases))|
  {
    if NextRound(steps, phases) == [] {
      full := phases;
    } else {
      OneRound(steps, phases);
      full := RunExists(steps, phases + [NextRound(steps, phases)]);
    }
  }

  /** Whatever is run with these ids, the steps left out are those that are stuck. */
  ghost predicate LeftOutMeansStuck(ids: seq<string>) {
    forall steps: seq<Step>, phases, s :: Ids(steps) == ids && IsRun(steps, phases) && s in steps
      ==> (s.id !in Placed(phases) <==> Blocked(steps, s.id))
  }

  lemma DistinctStepIds(steps: seq<Step>)
    ensures DistinctIds(steps) <==> Distinct(Ids(steps))
  {
    assert forall i :: 0 <= i < |steps| ==> Ids(steps)[i] == steps[i].id;
  }

  /** A name that is not among the ids. */
  lemma {:induction false} Unknown(ids: seq<string>) returns (name: string)
    ensures name !in ids && forall id :: id in ids ==> |id| < |name|
  {
    if ids == [] {
      name := "";
    } else {
      var shorter := Unknown(ids[1..]);
      name := seq(|shorter| + |ids[0]| + 1, i => 'x');
      assert forall id :: id in ids ==> id == ids[0] || id in ids[1..];
    }
  }

  /** Steps without inputs, but for the one at `j`, which needs a step that does not exist. */
  function AllFreeBut(ids: seq<string>, j: nat, missing: string): seq<Step> {
    seq(|ids|, k requires 0 <= k < |ids| => Step(ids[k], if k == j then Some([missing]) else None))
  }

  /** A step that is stuck while another one of its id is free: the id is placed and blocked at once. */
  lemma StuckBehindNamesake(ids: seq<string>, i: nat, j: nat, missing: string, phases: seq<seq<string>>)
    requires i < |ids| && j < |ids| && i != j && ids[i] == ids[j] && missing !in ids
    requires IsRun(AllFreeBut(ids, j, missing), phases)
    ensures Blocked(AllFreeBut(ids, j, missing), ids[j]) && ids[j] in Placed(phases)
  {
    var steps := AllFreeBut(ids, j, missing);
    var free, stuck := steps[i], steps[j];
    DerivableIffPlaced(steps, phases, ids[j], 0);
    assert Inputs(free) == [] && InputsDerivable(steps, free, 0) && free in steps;
    assert Derivable(steps, ids[j], 0);
    PlacedIffDerivable(steps, phases, ids[j]);
    var c := [ids[j], missing];
    assert stuck in steps && Inputs(stuck) == [missing] && missing in Inputs(stuck);
    assert Needs(steps, c[0], c[1]);
    assert Ids(steps) == ids;
    if IsKnown(steps, missing) {
      IdIsListed(steps, missing);
    }
    assert IsChain(steps, c) && DeadEnd(steps, c);
  }

  /** Left out means stuck, for all steps with these ids, exactly when no id is repeated. */
  lemma LeftOutMeansStuckIffDistinct(ids: seq<string>)
    ensures LeftOutMeansStuck(ids) <==> Distinct(ids)
  {
    hide Blocked, IsRun, Placed;
    if Distinct(ids) {
      forall steps: seq<Step>, phases, s | Ids(steps) == ids && IsRun(steps, phases) && s in steps
        ensures s.id !in Placed(phases) <==> Blocked(steps, s.id)
      {
        DistinctStepIds(steps);
        LeftOutIffBlocked(steps, phases, s);
      }
    } else {
      var i, j :| 0 <= i < j < |ids| && ids[i] == ids[j];
      var missing := Unknown(ids);
      var steps := AllFreeBut(ids, j, missing);
      assert RunSoFar(steps, []);
      var phases := RunExists(steps, []);
      StuckBehindNamesake(ids, i, j, missing, phases);
      assert Ids(steps) == ids && steps[j] in steps && steps[j].id == ids[j];
    }
  }

  /** So without distinct ids a step can vanish: the second "a" is stuck, yet its id counts as placed. */
  lemma DuplicateIdHidesStuckStep(steps: seq<Step>, phases: seq<seq<string>>)
    requires steps == [Step("a", None), Step("a", Some(["missing"]))]
    requires IsRun(steps, phases)
    ensures Blocked(steps, "a") && "a" in Placed(phases)
  {
    var ids := ["a", "a"];
    assert steps == AllFreeBut(ids, 1, "missing");
    assert |"missing"| != |"a"|;
    StuckBehindNamesake(ids, 0, 1, "missing", phases);
  }
}

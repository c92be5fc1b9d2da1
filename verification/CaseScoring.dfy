/**
 Scoring one case of the entity extractor (`scoreCase`, scripts/kg-eval/run-eval.ts).
 `norm` lower-cases a name and collapses its whitespace; it is a parameter.
 */
module CaseScoring {
  import opened Lists
  import opened Wrappers
  import opened GreedyMatching

  datatype ExtractedEntity = ExtractedEntity(canonicalName: string, aliases: seq<string>, kind: string)

  datatype ExpectedEntity =
    ExpectedEntity(canonicalName: string, kind: string, acceptableAliases: Option<seq<string>>)

  datatype TypeMismatch = TypeMismatch(name: string, expected: string, got: string)

  datatype Relation = Relation(subject: string, verb: string, obj: string)

  type Norm = string -> string

  // ---------- Entities ----------

  function ExtractedNames(e: ExtractedEntity): seq<string> {
    [e.canonicalName] + e.aliases
  }

  function ExpectedNames(x: ExpectedEntity): seq<string> {
    [x.canonicalName] + if x.acceptableAliases.Some? then x.acceptableAliases.value else []
  }

  predicate NameMatches(norm: Norm, e: ExtractedEntity, x: ExpectedEntity) {
    exists i, j :: 0 <= i < |ExtractedNames(e)| && 0 <= j < |ExpectedNames(x)|
      && norm(ExtractedNames(e)[i]) == norm(ExpectedNames(x)[j])
  }

  ghost predicate IsNameOf(e: ExtractedEntity, a: string) { a == e.canonicalName || a in e.aliases }

  ghost predicate IsExpectedName(x: ExpectedEntity, b: string) {
    b == x.canonicalName || (x.acceptableAliases.Some? && b in x.acceptableAliases.value)
  }

  /** After normalising, the canonical name or an alias of one is the canonical name or an accepted alias of the other. */
  lemma NameMatchMeans(norm: Norm, e: ExtractedEntity, x: ExpectedEntity)
    ensures NameMatches(norm, e, x) <==> exists a, b :: norm(a) == norm(b) && IsNameOf(e, a) && IsExpectedName(x, b)
  {
    var left, right := ExtractedNames(e), ExpectedNames(x);
    NamesListed(e, x);
    hide ExtractedNames, ExpectedNames, IsNameOf, IsExpectedName;
    if a, b :| norm(a) == norm(b) && IsNameOf(e, a) && IsExpectedName(x, b) {
      var i, j :| 0 <= i < |left| && left[i] == a && 0 <= j < |right| && right[j] == b;
    }
    if NameMatches(norm, e, x) {
      var i, j :| 0 <= i < |left| && 0 <= j < |right| && norm(left[i]) == norm(right[j]);
      assert left[i] in left && right[j] in right;
    }
  }

  lemma NamesListed(e: ExtractedEntity, x: ExpectedEntity)
    ensures forall a :: IsNameOf(e, a) <==> a in ExtractedNames(e)
    ensures forall b :: IsExpectedName(x, b) <==> b in ExpectedNames(x)
  {
  }

  function NamePairs(norm: Norm, exts: seq<ExtractedEntity>, exps: seq<ExpectedEntity>): Compat {
    (e: nat, x: nat) => e < |exts| && x < |exps| && NameMatches(norm, exts[e], exps[x])
  }

  /** The pairs the entity loop settles on, typed right or wrong. */
  ghost function EntityPairs(norm: Norm, exts: seq<ExtractedEntity>, exps: seq<ExpectedEntity>): map<nat, nat> {
    Assign(NamePairs(norm, exts, exps), |exts|, |exps|, 0, {})
  }

  /** The report of one matched pair: nothing when the types agree. */
  function MismatchOf(ext: ExtractedEntity, exp: ExpectedEntity): seq<TypeMismatch> {
    if ext.kind == exp.kind then [] else [TypeMismatch(ext.canonicalName, exp.kind, ext.kind)]
  }

  /** What the first `k` extracted entities report as typed wrongly, in order. */
  ghost function Mismatches(exts: seq<ExtractedEntity>, exps: seq<ExpectedEntity>, M: map<nat, nat>, k: nat): seq<TypeMismatch> {
    if k == 0 then []
    else
      Mismatches(exts, exps, M, k - 1)
      + if k - 1 in M && k <= |exts| && M[k - 1] < |exps| then MismatchOf(exts[k - 1], exps[M[k - 1]]) else []
  }

  lemma {:induction false} MismatchesBound(exts: seq<ExtractedEntity>, exps: seq<ExpectedEntity>, M: map<nat, nat>, k: nat)
    ensures |Mismatches(exts, exps, M, k)| <= |set e | e in M && e < k|
  {
    if k > 0 {
      MismatchesBound(exts, exps, M, k - 1);
      var now, before := set e | e in M && e < k, set e | e in M && e < k - 1;
      assert now == before + if k - 1 in M then {k - 1} else {};
    }
  }

  /** The items of `s` from `from` on whose index is not in `matched`, in order. */
  function Unmatched<T>(s: seq<T>, matched: set<nat>, from: nat): seq<T>
    decreases |s| - from
  {
    if from >= |s| then []
    else (if from in matched then [] else [s[from]]) + Unmatched(s, matched, from + 1)
  }

  datatype EntityScore = EntityScore(
    tp: int, fp: int, fn: int, typeErrors: nat,
    falsePositives: seq<ExtractedEntity>, falseNegatives: seq<ExpectedEntity>, typeMismatches: seq<TypeMismatch>)

  /** The score that a pairing `M` of extracted with expected entities earns. */
  ghost predicate IsScoreOf(s: EntityScore, exts: seq<ExtractedEntity>, exps: seq<ExpectedEntity>, M: map<nat, nat>) {
    && s.typeMismatches == Mismatches(exts, exps, M, |exts|)
    && s.typeErrors == |s.typeMismatches|
    && s.tp == |M| - s.typeErrors
    && s.fp == |exts| - |M|
    && s.fn == |exps| - |M|
    && s.falsePositives == Unmatched(exts, M.Keys, 0)
    && s.falseNegatives == Unmatched(exps, M.Values, 0)
  }

  method ScoreEntities(norm: Norm, exts: seq<ExtractedEntity>, exps: seq<ExpectedEntity>) returns (s: EntityScore)
    ensures IsScoreOf(s, exts, exps, EntityPairs(norm, exts, exps))
  {
    var c := NamePairs(norm, exts, exps);
    var matchedExpected, matchedExtracted, typeErrors, typeMismatches := PairEntities(c, exts, exps);
    AssignIsMatching(c, |exts|, |exps|, 0, {});
    ImageSize(Assign(c, |exts|, |exps|, 0, {}));
    s := EntityScore(|matchedExtracted| - typeErrors, |exts| - |matchedExtracted|, |exps| - |matchedExpected|, typeErrors,
                     Unmatched(exts, matchedExtracted, 0), Unmatched(exps, matchedExpected, 0), typeMismatches);
  }

  /** The entity loop, for any test of which names match. */
  method PairEntities(c: Compat, exts: seq<ExtractedEntity>, exps: seq<ExpectedEntity>)
    returns (matchedExpected: set<nat>, matchedExtracted: set<nat>, typeErrors: nat, typeMismatches: seq<TypeMismatch>)
    ensures var M := Assign(c, |exts|, |exps|, 0, {});
      && matchedExtracted == M.Keys && matchedExpected == M.Values
      && typeMismatches == Mismatches(exts, exps, M, |exts|) && typeErrors == |typeMismatches|
  {
    hide Assign, Progress, MismatchOf;
    ghost var M := Assign(c, |exts|, |exps|, 0, {});
    matchedExpected, matchedExtracted, typeErrors, typeMismatches := {}, {}, 0, [];
    ProgressStart(c, |exts|, |exps|);
    var ei: nat := 0;
    while ei < |exts|
      invariant ei <= |exts|
      invariant Progress(c, |exts|, |exps|, M, ei, matchedExpected, matchedExtracted)
      invariant typeMismatches == Mismatches(exts, exps, M, ei) && typeErrors == |typeMismatches|
    {
      var ext := exts[ei];
      var xi := FindFirst(c, ei, |exps|, matchedExpected);
      ProgressStep(c, |exts|, |exps|, M, ei, matchedExpected, matchedExtracted);
      if xi.Some? {
        var mismatch := MismatchOf(ext, exps[xi.value]);
        typeErrors, typeMismatches := typeErrors + |mismatch|, typeMismatches + mismatch;
        matchedExpected, matchedExtracted := matchedExpected + {xi.value}, matchedExtracted + {ei};
      }
      ei := ei + 1;
    }
    ProgressDone(c, |exts|, |exps|, M, matchedExpected, matchedExtracted);
  }

  /** After `k` left items the taken sets are the first part of `M` and the rest is still to come. */
  ghost predicate Progress(c: Compat, n: nat, m: nat, M: map<nat, nat>, k: nat, values: set<nat>, keys: set<nat>) {
    && Assign(c, n, m, k, values) == (map e | e in M && e >= k :: M[e])
    && keys == (set e | e in M && e < k)
    && values == (set e | e in M && e < k :: M[e])
  }

  lemma ProgressStart(c: Compat, n: nat, m: nat)
    ensures Progress(c, n, m, Assign(c, n, m, 0, {}), 0, {}, {})
  {
  }

  lemma ProgressStep(c: Compat, n: nat, m: nat, M: map<nat, nat>, k: nat, values: set<nat>, keys: set<nat>)
    requires k < n && Progress(c, n, m, M, k, values, keys)
    ensures var f := FirstFree(c, k, m, values, 0);
      if f.None? then k !in M && Progress(c, n, m, M, k + 1, values, keys)
      else k in M && M[k] == f.value && Progress(c, n, m, M, k + 1, values + {f.value}, keys + {k})
  {
    var f := FirstFree(c, k, m, values, 0);
    var now := Assign(c, n, m, k, values);
    assert k in M <==> k in now;
    if f.Some? {
      var rest := Assign(c, n, m, k + 1, values + {f.value});
      assert now == rest[k := f.value] && M[k] == now[k];
      assert rest == now - {k};
    }
  }

  lemma ProgressDone(c: Compat, n: nat, m: nat, M: map<nat, nat>, values: set<nat>, keys: set<nat>)
    requires Progress(c, n, m, M, n, values, keys) && forall e :: e in M ==> e < n
    ensures keys == M.Keys && values == M.Values
  {
  }

  /** Every entity is accounted for exactly once on either side. */
  lemma EntityAccounts(norm: Norm, exts: seq<ExtractedEntity>, exps: seq<ExpectedEntity>, s: EntityScore)
    requires IsScoreOf(s, exts, exps, EntityPairs(norm, exts, exps))
    ensures s.tp >= 0 && s.fp >= 0 && s.fn >= 0
    ensures s.tp + s.typeErrors + s.fp == |exts| && s.tp + s.typeErrors + s.fn == |exps|
    ensures |s.falsePositives| == s.fp && |s.falseNegatives| == s.fn
  {
    var c := NamePairs(norm, exts, exps);
    AssignIsMatching(c, |exts|, |exps|, 0, {});
    PairingAccounts(c, exts, exps, EntityPairs(norm, exts, exps));
  }

  lemma PairingAccounts(c: Compat, exts: seq<ExtractedEntity>, exps: seq<ExpectedEntity>, M: map<nat, nat>)
    requires IsMatching(c, 0, |exts|, |exps|, {}, M)
    ensures |Mismatches(exts, exps, M, |exts|)| <= |M| <= |exts| && |M| <= |exps|
    ensures |Unmatched(exts, M.Keys, 0)| == |exts| - |M| && |Unmatched(exps, M.Values, 0)| == |exps| - |M|
  {
    MatchingFits(c, |exts|, |exps|, M);
    ImageSize(M);
    MismatchesBound(exts, exps, M, |exts|);
    assert (set e | e in M && e < |exts|) == M.Keys;
    UnmatchedCount(exts, M.Keys, 0);
    UnmatchedCount(exps, M.Values, 0);
    assert (set i | i in M.Keys && i >= 0) == M.Keys;
    assert (set i | i in M.Values && i >= 0) == M.Values;
  }

  lemma {:induction false} UnmatchedCount<T>(s: seq<T>, matched: set<nat>, from: nat)
    requires from <= |s| && forall i :: i in matched ==> i < |s|
    ensures |Unmatched(s, matched, from)| + |set i | i in matched && i >= from| == |s| - from
    decreases |s| - from
  {
    var now, later := set i | i in matched && i >= from, set i | i in matched && i >= from + 1;
    if from == |s| {
      assert now == {};
    } else {
      UnmatchedCount(s, matched, from + 1);
      assert now == later + if from in matched then {from} else {};
    }
  }

  /** A mismatch is reported for exactly the pairs whose types differ, with the expected and the extracted type. */
  lemma {:induction false} MismatchesReported(exts: seq<ExtractedEntity>, exps: seq<ExpectedEntity>, M: map<nat, nat>, k: nat, t: TypeMismatch)
    ensures t in Mismatches(exts, exps, M, k) <==>
      exists e :: e in M && e < k && e < |exts| && M[e] < |exps| && exts[e].kind != exps[M[e]].kind
        && t.name == exts[e].canonicalName && t.expected == exps[M[e]].kind && t.got == exts[e].kind
  {
    if k > 0 {
      MismatchesReported(exts, exps, M, k - 1, t);
    }
  }

  /** The report lists hold exactly the items that were not matched. */
  lemma {:induction false} UnmatchedMembers<T>(s: seq<T>, matched: set<nat>, from: nat, x: T)
    ensures x in Unmatched(s, matched, from) <==> exists i :: from <= i < |s| && i !in matched && s[i] == x
    decreases |s| - from
  {
    if from < |s| {
      UnmatchedMembers(s, matched, from + 1, x);
      var head := if from in matched then [] else [s[from]];
      assert Unmatched(s, matched, from) == head + Unmatched(s, matched, from + 1);
      assert x in head <==> from !in matched && s[from] == x;
    }
  }

  /** They keep the order of the items, and each item is listed once. */
  lemma {:induction false} UnmatchedInOrder<T>(s: seq<T>, matched: set<nat>, from: nat) returns (at: seq<nat>)
    requires from <= |s|
    ensures IsPart(at, |s| - from) && Unmatched(s, matched, from) == Pick(s[from..], at)
    ensures forall i: nat :: i < |s| - from ==> (i in at <==> from + i !in matched)
    decreases |s| - from
  {
    if from == |s| {
      at := [];
    } else {
      at := UnmatchedInOrder(s, matched, from + 1);
      assert s[from..] == [s[from]] + s[from + 1..];
      at := KeepCons(s[from], s[from + 1..], at, from !in matched);
    }
  }

  /** Mismatches are reported in the order of the extracted entities, one for each pair typed wrongly. */
  lemma {:induction false} MismatchesInOrder(exts: seq<ExtractedEntity>, exps: seq<ExpectedEntity>, M: map<nat, nat>, k: nat)
    returns (at: seq<nat>)
    requires k <= |exts|
    ensures IsPart(at, k) && |Mismatches(exts, exps, M, k)| == |at|
    ensures forall e: nat :: e < k ==> (e in at <==> IsMistyped(exts, exps, M, e))
    ensures forall i :: 0 <= i < |at| && at[i] in M && M[at[i]] < |exps| ==>
      Mismatches(exts, exps, M, k)[i] == TypeMismatch(exts[at[i]].canonicalName, exps[M[at[i]]].kind, exts[at[i]].kind)
  {
    if k == 0 {
      at := [];
    } else {
      at := MismatchesInOrder(exts, exps, M, k - 1);
      if IsMistyped(exts, exps, M, k - 1) {
        at := at + [k - 1];
      }
    }
  }

  /** What is reported as missed never names something reported as spurious. */
  lemma NoMissedPair(norm: Norm, exts: seq<ExtractedEntity>, exps: seq<ExpectedEntity>, e: nat, x: nat)
    requires e < |exts| && x < |exps|
    requires e !in EntityPairs(norm, exts, exps) && x !in EntityPairs(norm, exts, exps).Values
    ensures !NameMatches(norm, exts[e], exps[x])
  {
    if NamePairs(norm, exts, exps)(e, x) {
      NoPairLeftOver(NamePairs(norm, exts, exps), |exts|, |exps|, 0, {}, e, x);
    }
  }

  /** No pairing by name is more than twice as large. */
  lemma EntityPairsAtLeastHalf(norm: Norm, exts: seq<ExtractedEntity>, exps: seq<ExpectedEntity>, M: map<nat, nat>)
    requires IsMatching(NamePairs(norm, exts, exps), 0, |exts|, |exps|, {}, M)
    ensures |M| <= 2 * |EntityPairs(norm, exts, exps)|
  {
    AtLeastHalf(NamePairs(norm, exts, exps), |exts|, |exps|, 0, {}, M);
    HitsCountAssignments(NamePairs(norm, exts, exps), |exts|, |exps|, 0, {});
  }

  // ---------- When the order of the expected list matters ----------

  /** The figures and the list of false positives that two scores have in common. */
  ghost predicate SameFigures(s: EntityScore, s': EntityScore) {
    && s.tp == s'.tp && s.fp == s'.fp && s.fn == s'.fn && s.typeErrors == s'.typeErrors
    && s.falsePositives == s'.falsePositives
  }

  /** The extracted entities score the same against either list. */
  ghost predicate ScoreAlike(norm: Norm, exts: seq<ExtractedEntity>, exps: seq<ExpectedEntity>, exps': seq<ExpectedEntity>) {
    forall s, s' :: IsScoreOf(s, exts, exps, EntityPairs(norm, exts, exps)) && IsScoreOf(s', exts, exps', EntityPairs(norm, exts, exps'))
      ==> SameFigures(s, s')
  }

  /** Whichever extracted and expected entities are listed, the order of the expected ones makes no difference. */
  ghost predicate OrderIrrelevant(norm: Norm, exts: seq<ExtractedEntity>, exps: seq<ExpectedEntity>) {
    forall l, r, r' :: IsPart(l, |exts|) && Reorders(r, r', |exps|)
      ==> ScoreAlike(norm, Pick(exts, l), Pick(exps, r), Pick(exps, r'))
  }

  /** All that an extracted entity could be matched with have its type, or none has. */
  ghost predicate TypesSettled(norm: Norm, exts: seq<ExtractedEntity>, exps: seq<ExpectedEntity>) {
    forall e, x, y :: 0 <= e < |exts| && 0 <= x < |exps| && 0 <= y < |exps|
      && NameMatches(norm, exts[e], exps[x]) && NameMatches(norm, exts[e], exps[y])
      ==> (exts[e].kind == exps[x].kind <==> exts[e].kind == exps[y].kind)
  }

  /** The extracted entity `e` is matched with an entity of another type. */
  ghost predicate IsMistyped(exts: seq<ExtractedEntity>, exps: seq<ExpectedEntity>, M: map<nat, nat>, e: nat) {
    e in M && e < |exts| && M[e] < |exps| && exts[e].kind != exps[M[e]].kind
  }

  lemma MismatchStep(exts: seq<ExtractedEntity>, exps: seq<ExpectedEntity>, M: map<nat, nat>, k: nat)
    requires k < |exts|
    ensures |Mismatches(exts, exps, M, k + 1)| == |Mismatches(exts, exps, M, k)| + if IsMistyped(exts, exps, M, k) then 1 else 0
  {
  }

  lemma {:induction false} SameMismatches(exts: seq<ExtractedEntity>, exps: seq<ExpectedEntity>, exps': seq<ExpectedEntity>,
                                          M: map<nat, nat>, M': map<nat, nat>, k: nat)
    requires k <= |exts| && forall e: nat :: e < k ==> (IsMistyped(exts, exps, M, e) <==> IsMistyped(exts, exps', M', e))
    ensures |Mismatches(exts, exps, M, k)| == |Mismatches(exts, exps', M', k)|
  {
    hide IsMistyped;
    if k > 0 {
      SameMismatches(exts, exps, exps', M, M', k - 1);
      MismatchStep(exts, exps, M, k - 1);
      MismatchStep(exts, exps', M', k - 1);
    }
  }

  /** With settled types, an entity that is matched in both orders has the right type in both or in neither. */
  lemma SameMistyped(norm: Norm, exts: seq<ExtractedEntity>, exps: seq<ExpectedEntity>, l: seq<nat>, r: seq<nat>, r': seq<nat>, e: nat)
    requires TypesSettled(norm, exts, exps) && IsPart(l, |exts|) && IsChoice(r, |exps|) && IsChoice(r', |exps|) && e < |l|
    requires EntityPairs(norm, Pick(exts, l), Pick(exps, r)).Keys == EntityPairs(norm, Pick(exts, l), Pick(exps, r')).Keys
    ensures IsMistyped(Pick(exts, l), Pick(exps, r), EntityPairs(norm, Pick(exts, l), Pick(exps, r)), e)
       <==> IsMistyped(Pick(exts, l), Pick(exps, r'), EntityPairs(norm, Pick(exts, l), Pick(exps, r')), e)
  {
    hide NameMatches, EntityPairs;
    PairsMatch(norm, exts, exps, l, r);
    PairsMatch(norm, exts, exps, l, r');
    var M, M' := EntityPairs(norm, Pick(exts, l), Pick(exps, r)), EntityPairs(norm, Pick(exts, l), Pick(exps, r'));
    assert e in M <==> e in M';
  }

  lemma PairsMatch(norm: Norm, exts: seq<ExtractedEntity>, exps: seq<ExpectedEntity>, l: seq<nat>, r: seq<nat>)
    requires IsPart(l, |exts|) && IsChoice(r, |exps|)
    ensures IsPartOf(NamePairs(norm, Pick(exts, l), Pick(exps, r)), NamePairs(norm, exts, exps), l, r)
    ensures var M := EntityPairs(norm, Pick(exts, l), Pick(exps, r));
      forall e :: e in M ==> e < |l| && M[e] < |r| && NameMatches(norm, exts[l[e]], exps[r[M[e]]])
  {
    hide NameMatches, Assign;
    AssignIsMatching(NamePairs(norm, Pick(exts, l), Pick(exps, r)), |l|, |r|, 0, {});
  }

  lemma AlikeWhenSettled(norm: Norm, exts: seq<ExtractedEntity>, exps: seq<ExpectedEntity>, l: seq<nat>, r: seq<nat>, r': seq<nat>)
    requires Nested(NamePairs(norm, exts, exps), |exts|, |exps|) && TypesSettled(norm, exts, exps)
    requires IsPart(l, |exts|) && Reorders(r, r', |exps|)
    ensures ScoreAlike(norm, Pick(exts, l), Pick(exps, r), Pick(exps, r'))
  {
    hide NameMatches, Assign, Nested, TypesSettled, IsPartOf, Mismatches, IsMistyped;
    var some, left, right := Pick(exts, l), Pick(exps, r), Pick(exps, r');
    PairsMatch(norm, exts, exps, l, r);
    PairsMatch(norm, exts, exps, l, r');
    SamePlaced(NamePairs(norm, some, left), NamePairs(norm, some, right), NamePairs(norm, exts, exps), |exts|, |exps|, l, r, r');
    forall e: nat | e < |l|
      ensures IsMistyped(some, left, EntityPairs(norm, some, left), e) <==> IsMistyped(some, right, EntityPairs(norm, some, right), e)
    {
      SameMistyped(norm, exts, exps, l, r, r', e);
    }
    SameMismatches(some, left, right, EntityPairs(norm, some, left), EntityPairs(norm, some, right), |l|);
    assert |EntityPairs(norm, some, left)| == |EntityPairs(norm, some, left).Keys|;
    assert |EntityPairs(norm, some, right)| == |EntityPairs(norm, some, right).Keys|;
  }

  /** The first name match wins even when its type is wrong and a later one would be right. */
  lemma FirstNameWins(norm: Norm, e: ExtractedEntity, x: ExpectedEntity, y: ExpectedEntity)
    requires NameMatches(norm, e, x)
    ensures EntityPairs(norm, [e], [x, y]) == map[0 := 0]
    ensures Mismatches([e], [x, y], map[0 := 0], 1) == MismatchOf(e, x)
  {
    var c := NamePairs(norm, [e], [x, y]);
    assert c(0, 0) && FirstFree(c, 0, 2, {}, 0) == Some(0);
    assert Mismatches([e], [x, y], map[0 := 0], 0) == [];
  }

  ghost function ScoreOf(exts: seq<ExtractedEntity>, exps: seq<ExpectedEntity>, M: map<nat, nat>): (s: EntityScore)
    ensures IsScoreOf(s, exts, exps, M)
  {
    var ms := Mismatches(exts, exps, M, |exts|);
    EntityScore(|M| - |ms|, |exts| - |M|, |exps| - |M|, |ms|, Unmatched(exts, M.Keys, 0), Unmatched(exps, M.Values, 0), ms)
  }

  /** One entity, two expected ones of its name, one of them of its type: the order decides between a hit and a type error. */
  lemma TypeOrderMatters(norm: Norm, e: ExtractedEntity, x: ExpectedEntity, y: ExpectedEntity)
    requires NameMatches(norm, e, x) && NameMatches(norm, e, y) && e.kind == x.kind && e.kind != y.kind
    ensures !ScoreAlike(norm, [e], [x, y], [y, x])
  {
    FirstNameWins(norm, e, x, y);
    FirstNameWins(norm, e, y, x);
    var s, s' := ScoreOf([e], [x, y], map[0 := 0]), ScoreOf([e], [y, x], map[0 := 0]);
    assert IsScoreOf(s, [e], [x, y], map[0 := 0]) && IsScoreOf(s', [e], [y, x], map[0 := 0]);
    assert s.typeErrors == 0 && s'.typeErrors == 1;
  }

  lemma CountOrderMatters(norm: Norm, exts: seq<ExtractedEntity>, exps: seq<ExpectedEntity>) returns (l: seq<nat>, r: seq<nat>, r': seq<nat>)
    requires !Nested(NamePairs(norm, exts, exps), |exts|, |exps|)
    ensures IsPart(l, |exts|) && Reorders(r, r', |exps|)
    ensures !ScoreAlike(norm, Pick(exts, l), Pick(exps, r), Pick(exps, r'))
  {
    hide NameMatches, Hits, Assign, Mismatches, Nested;
    l, r, r' := OrderTrap(NamePairs(norm, exts, exps), |exts|, |exps|);
    var some, left, right := Pick(exts, l), Pick(exps, r), Pick(exps, r');
    PairsMatch(norm, exts, exps, l, r);
    PairsMatch(norm, exts, exps, l, r');
    HitsCountAssignments(NamePairs(norm, some, left), 2, 2, 0, {});
    HitsCountAssignments(NamePairs(norm, some, right), 2, 2, 0, {});
    var s, s' := ScoreOf(some, left, EntityPairs(norm, some, left)), ScoreOf(some, right, EntityPairs(norm, some, right));
    assert s.fp != s'.fp;
  }

  /**
   The order of the expected entities makes no difference, whichever are listed, exactly when sharing
   is nested (of two extracted entities with a common match, the later one has all the matches of the
   earlier) and every extracted entity has matches of its own type only or of other types only.
   */
  lemma OrderIrrelevantIffSettled(norm: Norm, exts: seq<ExtractedEntity>, exps: seq<ExpectedEntity>)
    ensures OrderIrrelevant(norm, exts, exps) <==>
      Nested(NamePairs(norm, exts, exps), |exts|, |exps|) && TypesSettled(norm, exts, exps)
  {
    hide Nested, ScoreAlike;
    if !Nested(NamePairs(norm, exts, exps), |exts|, |exps|) {
      var l, r, r' := CountOrderMatters(norm, exts, exps);
    } else if !TypesSettled(norm, exts, exps) {
      var e: nat, x: nat, y: nat := Unsettled(norm, exts, exps);
      TypeOrderMatters(norm, exts[e], exps[x], exps[y]);
      assert Pick(exts, [e]) == [exts[e]] && Pick(exps, [x, y]) == [exps[x], exps[y]] && Pick(exps, [y, x]) == [exps[y], exps[x]];
      assert IsPart([e], |exts|) && Reorders([x, y], [y, x], |exps|);
    } else {
      forall l, r, r' | IsPart(l, |exts|) && Reorders(r, r', |exps|)
        ensures ScoreAlike(norm, Pick(exts, l), Pick(exps, r), Pick(exps, r'))
      {
        AlikeWhenSettled(norm, exts, exps, l, r, r');
      }
    }
  }

  lemma Unsettled(norm: Norm, exts: seq<ExtractedEntity>, exps: seq<ExpectedEntity>) returns (e: nat, x: nat, y: nat)
    requires !TypesSettled(norm, exts, exps)
    ensures e < |exts| && x < |exps| && y < |exps| && NameMatches(norm, exts[e], exps[x]) && NameMatches(norm, exts[e], exps[y])
    ensures exts[e].kind == exps[x].kind && exts[e].kind != exps[y].kind
  {
    hide NameMatches;
    e, x, y :| e < |exts| && x < |exps| && y < |exps| && NameMatches(norm, exts[e], exps[x]) && NameMatches(norm, exts[e], exps[y])
      && exts[e].kind == exps[x].kind && exts[e].kind != exps[y].kind;
  }

  ghost predicate SingleMatches(norm: Norm, exts: seq<ExtractedEntity>, exps: seq<ExpectedEntity>) {
    forall e, x, y :: (0 <= e < |exts| && 0 <= x < |exps| && 0 <= y < |exps|
      && NameMatches(norm, exts[e], exps[x]) && NameMatches(norm, exts[e], exps[y])) ==> x == y
  }

  /** In particular, when no extracted entity has two matches, every order of the whole list scores the same. */
  lemma SingleMatchesAnyOrder(norm: Norm, exts: seq<ExtractedEntity>, exps: seq<ExpectedEntity>, order: seq<nat>)
    requires SingleMatches(norm, exts, exps)
    requires Reorders(UpTo(|exps|), order, |exps|)
    ensures ScoreAlike(norm, exts, exps, Pick(exps, order))
  {
    hide NameMatches, ScoreAlike;
    var c := NamePairs(norm, exts, exps);
    forall v: nat, w: nat, i: nat | v < w < |exts| && i < |exps| && c(v, i) && c(w, i) ensures SharesAll(c, |exps|, v, w) {
    }
    OrderIrrelevantIffSettled(norm, exts, exps);
    assert Pick(exts, UpTo(|exts|)) == exts && Pick(exps, UpTo(|exps|)) == exps;
    assert IsPart(UpTo(|exts|), |exts|);
  }

  /** The order does matter: it decides between a type error and a hit. */
  lemma EntityOrderMatters(norm: Norm, name: string, right: string, wrong: string)
    requires right != wrong
    ensures var e, good, bad := ExtractedEntity(name, [], right), ExpectedEntity(name, right, None), ExpectedEntity(name, wrong, None);
      && |EntityPairs(norm, [e], [good, bad])| == |EntityPairs(norm, [e], [bad, good])| == 1
      && |Mismatches([e], [good, bad], EntityPairs(norm, [e], [good, bad]), 1)| == 0
      && |Mismatches([e], [bad, good], EntityPairs(norm, [e], [bad, good]), 1)| == 1
  {
    var e, good, bad := ExtractedEntity(name, [], right), ExpectedEntity(name, right, None), ExpectedEntity(name, wrong, None);
    assert ExtractedNames(e)[0] == ExpectedNames(good)[0] == ExpectedNames(bad)[0];
    FirstNameWins(norm, e, good, bad);
    FirstNameWins(norm, e, bad, good);
  }

  // ---------- Relations ----------

  function NormRelation(norm: Norm, r: Relation): Relation {
    Relation(norm(r.subject), r.verb, norm(r.obj))
  }

  /** Two relations are taken for equal when verbs agree and subjects and objects do after normalising. */
  lemma SameRelation(norm: Norm, a: Relation, b: Relation)
    ensures NormRelation(norm, a) == NormRelation(norm, b) <==>
      norm(a.subject) == norm(b.subject) && a.verb == b.verb && norm(a.obj) == norm(b.obj)
  {
  }

  function NormRelations(norm: Norm, rs: seq<Relation>): seq<Relation> {
    seq(|rs|, i requires 0 <= i < |rs| => NormRelation(norm, rs[i]))
  }

  function Equal<T(==)>(left: seq<T>, right: seq<T>): Compat {
    (i: nat, j: nat) => i < |left| && j < |right| && left[i] == right[j]
  }

  /** The items of `s` whose index is still free. */
  ghost function Free<T>(s: seq<T>, taken: set<nat>): multiset<T> {
    if s == [] then multiset{}
    else Free(s[..|s| - 1], taken) + if |s| - 1 in taken then multiset{} else multiset{s[|s| - 1]}
  }

  lemma {:induction false} FreeNone<T>(s: seq<T>)
    ensures Free(s, {}) == multiset(s)
  {
    if s != [] {
      FreeNone(s[..|s| - 1]);
      assert s == s[..|s| - 1] + [s[|s| - 1]];
    }
  }

  lemma {:induction false} FreeTake<T>(s: seq<T>, taken: set<nat>, j: nat)
    requires j !in taken
    ensures Free(s, taken) == Free(s, taken + {j}) + if j < |s| then multiset{s[j]} else multiset{}
  {
    if s != [] {
      var p, last := s[..|s| - 1], s[|s| - 1];
      FreeTake(p, taken, j);
      if j == |s| - 1 {
        assert Free(s, taken) == Free(p, taken) + multiset{last} && Free(s, taken + {j}) == Free(p, taken + {j});
      } else if j < |s| - 1 {
        assert p[j] == s[j];
      }
    }
  }

  lemma {:induction false} FreeAbsent<T>(s: seq<T>, taken: set<nat>, x: T)
    requires forall i :: 0 <= i < |s| && s[i] == x ==> i in taken
    ensures x !in Free(s, taken)
  {
    if s != [] {
      FreeAbsent(s[..|s| - 1], taken, x);
    }
  }

  lemma Intersect<T>(x: T, rest: multiset<T>, free: multiset<T>)
    ensures x !in free ==> (multiset{x} + rest) * free == rest * free
    ensures |(multiset{x} + rest) * (free + multiset{x})| == 1 + |rest * free|
  {
    assert (multiset{x} + rest) * (free + multiset{x}) == multiset{x} + rest * free;
  }

  lemma {:induction false} HitsAreIntersection<T>(left: seq<T>, right: seq<T>, k: nat, taken: set<nat>)
    requires k <= |left|
    ensures Hits(Equal(left, right), |left|, |right|, k, taken) == |multiset(left[k..]) * Free(right, taken)|
    decreases |left| - k
  {
    if k == |left| {
      assert multiset(left[k..]) == multiset{};
    } else {
      var c, x, rest := Equal(left, right), left[k], multiset(left[k + 1..]);
      assert left[k..] == [x] + left[k + 1..];
      match FirstFree(c, k, |right|, taken, 0)
      case None =>
        assert forall i: nat :: i < |right| && right[i] == x ==> c(k, i);
        FirstFreeIsFirst(c, k, |right|, taken, 0);
        FreeAbsent(right, taken, x);
        HitsAreIntersection(left, right, k + 1, taken);
        Intersect(x, rest, Free(right, taken));
      case Some(j) =>
        FreeTake(right, taken, j);
        HitsAreIntersection(left, right, k + 1, taken + {j});
        Intersect(x, rest, Free(right, taken + {j}));
    }
  }

  /** The relation loop, for any test of which relations are equal. */
  method PairRelations(c: Compat, n: nat, m: nat) returns (matchedExtRel: set<nat>, matchedExpRel: set<nat>)
    ensures |matchedExtRel| == |matchedExpRel| == Hits(c, n, m, 0, {})
  {
    hide Hits, FirstFree;
    matchedExpRel, matchedExtRel := {}, {};
    for ri := 0 to n
      invariant forall i :: i in matchedExtRel ==> i < ri
      invariant |matchedExtRel| == |matchedExpRel|
      invariant |matchedExtRel| + Hits(c, n, m, ri, matchedExpRel) == Hits(c, n, m, 0, {})
    {
      var xi := FindFirst(c, ri, m, matchedExpRel);
      HitsStep(c, n, m, ri, matchedExpRel);
      if xi.Some? {
        matchedExpRel, matchedExtRel := matchedExpRel + {xi.value}, matchedExtRel + {ri};
      }
    }
    HitsStep(c, n, m, n, matchedExpRel);
  }

  lemma HitsStep(c: Compat, n: nat, m: nat, k: nat, taken: set<nat>)
    ensures k >= n ==> Hits(c, n, m, k, taken) == 0
    ensures var f := FirstFree(c, k, m, taken, 0);
      k < n ==> Hits(c, n, m, k, taken) == if f.Some? then 1 + Hits(c, n, m, k + 1, taken + {f.value}) else Hits(c, n, m, k + 1, taken)
  {
  }

  method ScoreRelations(norm: Norm, exts: seq<Relation>, exps: seq<Relation>)
    returns (relationTp: nat, relationFp: int, relationFn: int)
    ensures relationTp == |multiset(NormRelations(norm, exts)) * multiset(NormRelations(norm, exps))|
    ensures relationTp + relationFp == |exts| && relationTp + relationFn == |exps|
    ensures relationFp >= 0 && relationFn >= 0
  {
    hide Hits, Equal;
    var expRelNorm, extRelNorm := NormRelations(norm, exps), NormRelations(norm, exts);
    var matchedExtRel, matchedExpRel := PairRelations(Equal(extRelNorm, expRelNorm), |extRelNorm|, |expRelNorm|);
    relationTp := |matchedExtRel|;
    relationFp := |extRelNorm| - relationTp;
    relationFn := |expRelNorm| - |matchedExpRel|;
    RelationHits(extRelNorm, expRelNorm);
  }

  lemma RelationHits<T>(left: seq<T>, right: seq<T>)
    ensures Hits(Equal(left, right), |left|, |right|, 0, {}) == |multiset(left) * multiset(right)|
    ensures |multiset(left) * multiset(right)| <= |left| && |multiset(left) * multiset(right)| <= |right|
  {
    HitsAreIntersection(left, right, 0, {});
    FreeNone(right);
    assert left[0..] == left;
    var both := multiset(left) * multiset(right);
    assert |both| + |multiset(left) - both| == |multiset(left)|;
    assert |both| + |multiset(right) - both| == |multiset(right)|;
  }

  /** No other one-to-one pairing of equal triples scores higher. */
  lemma NoBetterPairing<T>(left: seq<T>, right: seq<T>, M: map<nat, nat>)
    requires IsMatching(Equal(left, right), 0, |left|, |right|, {}, M)
    ensures |M| <= |multiset(left) * multiset(right)|
  {
    var c := Equal(left, right);
    forall v: nat, w: nat, i: nat | v < |left| && w < |left| && i < |right| && c(v, i) && c(w, i)
      ensures SameNeighbours(c, |right|, v, w)
    {
    }
    OptimalWhenUniform(c, |left|, |right|, 0, {}, M);
    RelationHits(left, right);
  }
}

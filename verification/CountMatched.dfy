/**
 How many wanted entity names a model produced (`countMatched`,
 scripts/model-fitness/capabilities.ts).  The tokenizer is a parameter.
 */
module CountMatched {
  import opened Lists
  import opened Wrappers
  import opened GreedyMatching

  type Tokenizer = string -> seq<string>

  /** The last token of a wanted name, which is the one the match is keyed on. */
  function KeyOf(tokensOf: Tokenizer, name: string): Option<string> {
    var ts := tokensOf(name);
    if ts == [] then None else Some(ts[|ts| - 1])
  }

  function Covers(tokensOf: Tokenizer, want: seq<string>, found: seq<string>): Compat {
    (w: nat, i: nat) =>
      w < |want| && i < |found| &&
      var key := KeyOf(tokensOf, want[w]); key.Some? && key.value in tokensOf(found[i])
  }

  /** An assignment of found entries to wanted names: each entry serves at most one name. */
  ghost predicate IsAssignment(tokensOf: Tokenizer, want: seq<string>, found: seq<string>, M: map<nat, nat>) {
    IsMatching(Covers(tokensOf, want, found), 0, |want|, |found|, {}, M)
  }

  ghost function Count(tokensOf: Tokenizer, want: seq<string>, found: seq<string>): nat {
    Hits(Covers(tokensOf, want, found), |want|, |found|, 0, {})
  }

  method CountMatched(tokensOf: Tokenizer, want: seq<string>, found: seq<string>) returns (hits: nat)
    ensures hits == Count(tokensOf, want, found)
  {
    var c := Covers(tokensOf, want, found);
    var taken: set<nat> := {};
    hits := 0;
    for k := 0 to |want|
      invariant hits + Hits(c, |want|, |found|, k, taken) == Count(tokensOf, want, found)
    {
      var wt := tokensOf(want[k]);
      if wt == [] {
        NothingCovered(c, |want|, |found|, k, taken);
        continue;
      }
      var i := FindFirst(c, k, |found|, taken);
      if i.Some? {
        taken := taken + {i.value};
        hits := hits + 1;
      }
    }
  }

  lemma NothingCovered(c: Compat, n: nat, m: nat, k: nat, taken: set<nat>)
    requires k < n && forall i: nat :: i < m ==> !c(k, i)
    ensures Hits(c, n, m, k, taken) == Hits(c, n, m, k + 1, taken)
  {
    assert FirstFree(c, k, m, taken, 0).None?;
  }

  /** The count is the size of a one-to-one assignment, and is bounded by both lists. */
  lemma CountIsAssignment(tokensOf: Tokenizer, want: seq<string>, found: seq<string>)
    ensures exists M :: IsAssignment(tokensOf, want, found, M) && |M| == Count(tokensOf, want, found)
    ensures Count(tokensOf, want, found) <= |want| && Count(tokensOf, want, found) <= |found|
  {
    var c := Covers(tokensOf, want, found);
    var M := Assign(c, |want|, |found|, 0, {});
    HitsCountAssignments(c, |want|, |found|, 0, {});
    AssignIsMatching(c, |want|, |found|, 0, {});
    assert IsAssignment(tokensOf, want, found, M);
    MatchingFits(c, |want|, |found|, M);
  }

  /** What such an assignment is: its pairs pass the test on the last token of the wanted name, and share no entry. */
  lemma AssignmentMeans(tokensOf: Tokenizer, want: seq<string>, found: seq<string>, M: map<nat, nat>)
    ensures IsAssignment(tokensOf, want, found, M) <==>
      && (forall w :: w in M ==> (w < |want| && M[w] < |found|
            && tokensOf(want[w]) != [] && tokensOf(want[w])[|tokensOf(want[w])| - 1] in tokensOf(found[M[w]])))
      && (forall v, w :: v in M && w in M && M[v] == M[w] ==> v == w)
  {
    var c := Covers(tokensOf, want, found);
    forall w: nat, i: nat | w < |want| && i < |found|
      ensures c(w, i) <==> tokensOf(want[w]) != [] && tokensOf(want[w])[|tokensOf(want[w])| - 1] in tokensOf(found[i])
    {
    }
  }

  /** One name is found in one entry exactly when its last token is among the tokens of the entry. */
  lemma CountOfOne(tokensOf: Tokenizer, w: string, x: string)
    ensures Count(tokensOf, [w], [x]) <= 1
    ensures Count(tokensOf, [w], [x]) == 1 <==> tokensOf(w) != [] && tokensOf(w)[|tokensOf(w)| - 1] in tokensOf(x)
  {
    var want, found := [w], [x];
    var c := Covers(tokensOf, want, found);
    assert want[0] == w && found[0] == x;
    assert c(0, 0) <==> tokensOf(w) != [] && tokensOf(w)[|tokensOf(w)| - 1] in tokensOf(x);
    assert FirstFree(c, 0, 1, {}, 0) == if c(0, 0) then Some(0) else None;
    assert Hits(c, 1, 1, 1, {0}) == 0 && Hits(c, 1, 1, 1, {}) == 0 && {} + {0} == {0 as nat};
  }

  lemma CountAtLeastHalf(tokensOf: Tokenizer, want: seq<string>, found: seq<string>, M: map<nat, nat>)
    requires IsAssignment(tokensOf, want, found, M)
    ensures |M| <= 2 * Count(tokensOf, want, found)
  {
    AtLeastHalf(Covers(tokensOf, want, found), |want|, |found|, 0, {}, M);
  }

  // ---------- When the count is the best possible ----------

  ghost predicate IsBestCount(tokensOf: Tokenizer, want: seq<string>, found: seq<string>) {
    forall M :: IsAssignment(tokensOf, want, found, M) ==> |M| <= Count(tokensOf, want, found)
  }

  /**
   A trap: a name that two entries could serve comes before one that only the first of them could.
   The first name takes the first entry and leaves the other name with nothing.
   */
  ghost predicate HasTrap(tokensOf: Tokenizer, want: seq<string>, found: seq<string>) {
    !NoTrap(Covers(tokensOf, want, found), |want|, |found|)
  }

  lemma PartIsBest(tokensOf: Tokenizer, want: seq<string>, found: seq<string>, l: seq<nat>, r: seq<nat>)
    requires IsChoice(l, |want|) && IsChoice(r, |found|)
    ensures IsBestCount(tokensOf, Pick(want, l), Pick(found, r)) <==> IsBest(Chosen(Covers(tokensOf, want, found), l, r), |l|, |r|)
  {
    hide Hits;
    SameHits(Covers(tokensOf, Pick(want, l), Pick(found, r)), Chosen(Covers(tokensOf, want, found), l, r), |l|, |r|, 0, {});
  }

  lemma PartIsChoice(at: seq<nat>, n: nat)
    requires IsPart(at, n)
    ensures IsChoice(at, n)
  {
  }

  /**
   The greedy count is the best any assignment reaches, for the lists and whatever is dropped from
   them, exactly when they hold no trap.
   */
  lemma CountIsBestIffNoTrap(tokensOf: Tokenizer, want: seq<string>, found: seq<string>)
    ensures !HasTrap(tokensOf, want, found) <==>
      forall l, r :: IsPart(l, |want|) && IsPart(r, |found|) ==> IsBestCount(tokensOf, Pick(want, l), Pick(found, r))
  {
    hide IsBestCount, IsBest, IsChoice, NoTrap;
    var c := Covers(tokensOf, want, found);
    BestIffNoTrap(c, |want|, |found|);
    forall l, r | IsPart(l, |want|) && IsPart(r, |found|)
      ensures IsBestCount(tokensOf, Pick(want, l), Pick(found, r)) <==> IsBest(Chosen(c, l, r), |l|, |r|)
    {
      PartIsChoice(l, |want|);
      PartIsChoice(r, |found|);
      PartIsBest(tokensOf, want, found, l, r);
    }
  }

  /** Whatever the order of the lists, exactly when names that share an entry share all their entries. */
  lemma CountIsBestInAnyOrder(tokensOf: Tokenizer, want: seq<string>, found: seq<string>)
    ensures Uniform(Covers(tokensOf, want, found), |want|, |found|) <==>
      forall l, r :: IsChoice(l, |want|) && IsChoice(r, |found|) ==> IsBestCount(tokensOf, Pick(want, l), Pick(found, r))
  {
    hide IsBestCount, IsBest, Uniform;
    var c := Covers(tokensOf, want, found);
    BestInAnyOrderIffUniform(c, |want|, |found|);
    forall l, r | IsChoice(l, |want|) && IsChoice(r, |found|)
      ensures IsBestCount(tokensOf, Pick(want, l), Pick(found, r)) <==> IsBest(Chosen(c, l, r), |l|, |r|)
    {
      PartIsBest(tokensOf, want, found, l, r);
    }
  }

  /** No found entry carries two different wanted keys. */
  ghost predicate KeysApart(tokensOf: Tokenizer, want: seq<string>, found: seq<string>) {
    forall v: nat, w: nat, i: nat :: v < |want| && w < |want| && i < |found|
      && Covers(tokensOf, want, found)(v, i) && Covers(tokensOf, want, found)(w, i)
      ==> KeyOf(tokensOf, want[v]) == KeyOf(tokensOf, want[w])
  }

  /** Names that share an entry then share all their entries. */
  lemma KeysApartIsUniform(tokensOf: Tokenizer, want: seq<string>, found: seq<string>)
    requires KeysApart(tokensOf, want, found)
    ensures Uniform(Covers(tokensOf, want, found), |want|, |found|)
  {
    var c := Covers(tokensOf, want, found);
    forall v: nat, w: nat, i: nat | v < |want| && w < |want| && i < |found| && c(v, i) && c(w, i)
      ensures SameNeighbours(c, |found|, v, w)
    {
      assert KeyOf(tokensOf, want[v]) == KeyOf(tokensOf, want[w]);
    }
  }

  /** Then the greedy count is the best any assignment reaches. */
  lemma CountIsBest(tokensOf: Tokenizer, want: seq<string>, found: seq<string>, M: map<nat, nat>)
    requires KeysApart(tokensOf, want, found)
    requires IsAssignment(tokensOf, want, found, M)
    ensures |M| <= Count(tokensOf, want, found)
  {
    KeysApartIsUniform(tokensOf, want, found);
    OptimalWhenUniform(Covers(tokensOf, want, found), |want|, |found|, 0, {}, M);
  }

  /** One more found entry at the end counts for at most one wanted name, and never hurts. */
  lemma OneMoreFound(tokensOf: Tokenizer, want: seq<string>, found: seq<string>, x: string)
    ensures Count(tokensOf, want, found) <= Count(tokensOf, want, found + [x]) <= Count(tokensOf, want, found) + 1
  {
    var c, c' := Covers(tokensOf, want, found), Covers(tokensOf, want, found + [x]);
    forall w: nat, i: nat | i < |found| ensures c(w, i) == c'(w, i) {
      assert (found + [x])[i] == found[i];
    }
    SameHits(c, c', |want|, |found|, 0, {});
    OneMoreItem(c', |want|, |found|, 0, {});
  }

  /**
   The rule is greedy, so it can miss: the name "a" takes the entry "a b", which is the only one for
   the name "b", although the entry "a" would have done.
   */
  lemma GreedyCanMiss(tokensOf: Tokenizer)
    requires tokensOf("a") == ["a"] && tokensOf("b") == ["b"] && tokensOf("a b") == ["a", "b"]
    ensures exists M :: IsAssignment(tokensOf, ["a", "b"], ["a b", "a"], M) && |M| == 2
    ensures Count(tokensOf, ["a", "b"], ["a b", "a"]) == 1
  {
    hide Hits, IsMatching;
    var want, found := ["a", "b"], ["a b", "a"];
    var c := Covers(tokensOf, want, found);
    assert "a"[0] != "b"[0];
    assert KeyOf(tokensOf, want[0]) == Some("a") && KeyOf(tokensOf, want[1]) == Some("b");
    assert c(0, 0) && c(0, 1) && c(1, 0) && !c(1, 1);
    TwoInTrap(c);
    var M :| IsMatching(c, 0, 2, 2, {}, M) && |M| == 2;
    assert IsAssignment(tokensOf, want, found, M);
  }
}

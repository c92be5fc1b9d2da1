/**
 First-fit one-to-one assignment.

 Three loops of the repository have this shape: for each left item in order, take the
 first right item that is still free and compatible.  They differ in the compatibility
 test only, so the theorems about the assignment are proved once, here.
 */
module GreedyMatching {
  import opened Lists
  import opened Wrappers

  /** Left items and right items are indices; the flag says which pairs may be assigned. */
  type Compat = (nat, nat) -> bool

  /** `M` assigns items from `lo..n` to distinct, compatible, free items below `m`. */
  ghost predicate IsMatching(c: Compat, lo: nat, n: nat, m: nat, taken: set<nat>, M: map<nat, nat>) {
    && (forall w :: w in M ==> lo <= w < n && M[w] < m && M[w] !in taken && c(w, M[w]))
    && (forall v, w :: v in M && w in M && M[v] == M[w] ==> v == w)
  }

  /** The least free index from `j` on that is compatible with `w`. */
  function FirstFree(c: Compat, w: nat, m: nat, taken: set<nat>, j: nat): (r: Option<nat>)
    ensures r.Some? ==> j <= r.value < m && r.value !in taken && c(w, r.value)
    decreases m - j
  {
    if j >= m then None
    else if j !in taken && c(w, j) then Some(j)
    else FirstFree(c, w, m, taken, j + 1)
  }

  /** No earlier index would have done. */
  lemma {:induction false} FirstFreeIsFirst(c: Compat, w: nat, m: nat, taken: set<nat>, j: nat)
    ensures var r := FirstFree(c, w, m, taken, j);
      forall i :: j <= i < (if r.Some? then r.value else m) && c(w, i) ==> i in taken
    decreases m - j
  {
    if j < m {
      FirstFreeIsFirst(c, w, m, taken, j + 1);
    }
  }

  /** The search loop that all three programs run for each left item. */
  method FindFirst(c: Compat, w: nat, m: nat, taken: set<nat>) returns (r: Option<nat>)
    ensures r == FirstFree(c, w, m, taken, 0)
  {
    var i := 0;
    while i < m
      invariant 0 <= i <= m
      invariant FirstFree(c, w, m, taken, 0) == FirstFree(c, w, m, taken, i)
    {
      if i !in taken && c(w, i) { return Some(i); }
      i := i + 1;
    }
    return None;
  }

  /** The assignment of the left items `k..n`, given the right items already taken. */
  function Assign(c: Compat, n: nat, m: nat, k: nat, taken: set<nat>): (M: map<nat, nat>)
    ensures forall w :: w in M ==> k <= w < n && M[w] < m
    decreases n - k
  {
    if k >= n then map[]
    else
      match FirstFree(c, k, m, taken, 0)
      case None => Assign(c, n, m, k + 1, taken)
      case Some(j) => Assign(c, n, m, k + 1, taken + {j})[k := j]
  }

  lemma {:induction false} AssignIsMatching(c: Compat, n: nat, m: nat, k: nat, taken: set<nat>)
    ensures IsMatching(c, k, n, m, taken, Assign(c, n, m, k, taken))
    decreases n - k
  {
    if k < n {
      match FirstFree(c, k, m, taken, 0)
      case None => AssignIsMatching(c, n, m, k + 1, taken);
      case Some(j) =>
        AssignIsMatching(c, n, m, k + 1, taken + {j});
    }
  }

  // ---------- Sizes ----------

  /** A matching is no larger than either side. */
  lemma MatchingFits(c: Compat, n: nat, m: nat, M: map<nat, nat>)
    requires IsMatching(c, 0, n, m, {}, M)
    ensures |M| <= n && |M| <= m
  {
    RangeBound(M.Keys, n);
    ImageSize(M);
    RangeBound(M.Values, m);
  }

  lemma {:induction false} RangeBound(s: set<nat>, n: nat)
    requires forall x :: x in s ==> x < n
    ensures |s| <= n
  {
    if n == 0 {
      assert s == {};
    } else {
      RangeBound(s - {n - 1}, n - 1);
      if n - 1 in s {
        assert |s - {n - 1}| == |s| - 1;
      } else {
        assert s - {n - 1} == s;
      }
    }
  }

  lemma {:induction false} ImageSize(M: map<nat, nat>)
    requires forall v, w :: v in M && w in M && M[v] == M[w] ==> v == w
    ensures |M.Values| == |M|
    decreases |M|
  {
    if v :| v in M {
      var R := M - {v};
      ImageSize(R);
      forall y ensures y in M.Values <==> y in R.Values + {M[v]} {
        if w :| w in M && M[w] == y {
          assert w == v || (w in R && R[w] == y);
        }
      }
      assert M.Values == R.Values + {M[v]} && M[v] !in R.Values;
      assert M.Keys == R.Keys + {v};
    } else {
      assert M.Values == {};
    }
  }

  /** How many left items the assignment places. */
  function Hits(c: Compat, n: nat, m: nat, k: nat, taken: set<nat>): nat
    decreases n - k
  {
    if k >= n then 0
    else
      match FirstFree(c, k, m, taken, 0)
      case None => Hits(c, n, m, k + 1, taken)
      case Some(j) => 1 + Hits(c, n, m, k + 1, taken + {j})
  }

  lemma {:induction false} HitsCountAssignments(c: Compat, n: nat, m: nat, k: nat, taken: set<nat>)
    ensures |Assign(c, n, m, k, taken)| == Hits(c, n, m, k, taken)
    decreases n - k
  {
    if k < n {
      match FirstFree(c, k, m, taken, 0)
      case None => HitsCountAssignments(c, n, m, k + 1, taken);
      case Some(j) =>
        HitsCountAssignments(c, n, m, k + 1, taken + {j});
        var rest := Assign(c, n, m, k + 1, taken + {j});
        assert k !in rest && rest[k := j].Keys == rest.Keys + {k};
    }
  }

  /** A matching without the assignments of `w` and of whoever holds `j`. */
  ghost function Without(M: map<nat, nat>, w: nat, j: nat): map<nat, nat> {
    map v | v in M && v != w && M[v] != j :: M[v]
  }

  lemma WithoutIsMatching(c: Compat, n: nat, m: nat, k: nat, taken: set<nat>, M: map<nat, nat>, j: nat)
    requires k < n && IsMatching(c, k, n, m, taken, M)
    ensures IsMatching(c, k + 1, n, m, taken + {j}, Without(M, k, j))
  {
  }

  /** At most `k` and one holder of `j` are dropped. */
  lemma WithoutSize(c: Compat, n: nat, m: nat, k: nat, taken: set<nat>, M: map<nat, nat>, j: nat)
    requires IsMatching(c, k, n, m, taken, M)
    ensures |Without(M, k, j)| + 2 >= |M|
    ensures k !in M || (forall v :: v in M && v != k ==> M[v] != j) ==> |Without(M, k, j)| + 1 >= |M|
  {
    var R := Without(M, k, j);
    if v :| v in M && v != k && M[v] == j {
      assert M.Keys <= R.Keys + {k, v};
      CardinalityBound(M.Keys, R.Keys, {k, v}, 2);
      if k !in M {
        assert M.Keys <= R.Keys + {v};
        CardinalityBound(M.Keys, R.Keys, {v}, 1);
      }
    } else {
      assert M.Keys <= R.Keys + {k};
      CardinalityBound(M.Keys, R.Keys, {k}, 1);
    }
  }

  lemma CardinalityBound(a: set<nat>, b: set<nat>, extra: set<nat>, d: nat)
    requires a <= b + extra && |extra| <= d
    ensures |a| <= |b| + d
  {
    SubsetCardinality(a, b + extra);
    assert |b + extra| <= |b| + |extra|;
  }

  lemma {:induction false} SubsetCardinality(a: set<nat>, b: set<nat>)
    requires a <= b
    ensures |a| <= |b|
    decreases |a|
  {
    if x :| x in a {
      SubsetCardinality(a - {x}, b - {x});
    }
  }

  lemma NothingToPlace(c: Compat, n: nat, m: nat, taken: set<nat>, M: map<nat, nat>)
    requires IsMatching(c, n, n, m, taken, M)
    ensures |M| == 0
  {
    assert M.Keys == {};
  }

  /** When `k` cannot be placed, no matching places it either. */
  lemma UnplacedIsUnplaceable(c: Compat, n: nat, m: nat, k: nat, taken: set<nat>, M: map<nat, nat>)
    requires k < n && IsMatching(c, k, n, m, taken, M) && FirstFree(c, k, m, taken, 0).None?
    ensures IsMatching(c, k + 1, n, m, taken, M)
  {
    FirstFreeIsFirst(c, k, m, taken, 0);
  }

  /** The first-fit assignment reaches at least half of every other assignment. */
  lemma {:induction false} AtLeastHalf(c: Compat, n: nat, m: nat, k: nat, taken: set<nat>, M: map<nat, nat>)
    requires k <= n && IsMatching(c, k, n, m, taken, M)
    ensures |M| <= 2 * Hits(c, n, m, k, taken)
    decreases n - k
  {
    hide IsMatching;
    if k == n {
      NothingToPlace(c, n, m, taken, M);
    } else {
      match FirstFree(c, k, m, taken, 0)
      case None =>
        UnplacedIsUnplaceable(c, n, m, k, taken, M);
        AtLeastHalf(c, n, m, k + 1, taken, M);
      case Some(j) =>
        WithoutIsMatching(c, n, m, k, taken, M, j);
        WithoutSize(c, n, m, k, taken, M, j);
        AtLeastHalf(c, n, m, k + 1, taken + {j}, Without(M, k, j));
    }
  }

  ghost predicate SameNeighbours(c: Compat, m: nat, v: nat, w: nat) {
    forall i: nat :: i < m ==> c(v, i) == c(w, i)
  }

  /** Two left items that share one compatible right item share all of them. */
  ghost predicate Uniform(c: Compat, n: nat, m: nat) {
    forall v: nat, w: nat, i: nat :: v < n && w < n && i < m && c(v, i) && c(w, i) ==> SameNeighbours(c, m, v, w)
  }

  /** Hands the place of `k` to `v`, who holds `j`. */
  lemma HandOver(c: Compat, n: nat, m: nat, k: nat, taken: set<nat>, M: map<nat, nat>, v: nat)
    requires k < n && IsMatching(c, k, n, m, taken, M) && k in M && v in M && v != k && c(v, M[k])
    ensures IsMatching(c, k + 1, n, m, taken + {M[v]}, Without(M, k, M[v])[v := M[k]])
    ensures |Without(M, k, M[v])[v := M[k]]| + 1 >= |M|
  {
    var W := Without(M, k, M[v]);
    WithoutIsMatching(c, n, m, k, taken, M, M[v]);
    AddAssignment(c, k + 1, n, m, taken + {M[v]}, W, v, M[k]);
    assert M.Keys <= W[v := M[k]].Keys + {k};
    CardinalityBound(M.Keys, W[v := M[k]].Keys, {k}, 1);
  }

  lemma AddAssignment(c: Compat, k: nat, n: nat, m: nat, taken: set<nat>, M: map<nat, nat>, v: nat, i: nat)
    requires IsMatching(c, k, n, m, taken, M) && k <= v < n && i < m && i !in taken && c(v, i)
    requires v !in M && forall w :: w in M ==> M[w] != i
    ensures IsMatching(c, k, n, m, taken, M[v := i])
  {
  }

  /** `w` can take whatever `v` can take after `i`. */
  ghost predicate SharesAfter(c: Compat, m: nat, v: nat, w: nat, i: nat) {
    forall j: nat :: i < j < m && c(v, j) ==> c(w, j)
  }

  /**
   No trap for first fit: whenever `v` comes before `w` and both could take `i`, every later choice
   that `v` would have is open to `w` as well.
   */
  ghost predicate NoTrap(c: Compat, n: nat, m: nat) {
    forall v: nat, w: nat, i: nat :: v < w < n && i < m && c(v, i) && c(w, i) ==> SharesAfter(c, m, v, w, i)
  }

  /** Frees `j`, the first item that `k` can have, and drops `k` at the cost of one assignment. */
  lemma Exchange(c: Compat, n: nat, m: nat, k: nat, taken: set<nat>, M: map<nat, nat>, j: nat) returns (R: map<nat, nat>)
    requires k < n && IsMatching(c, k, n, m, taken, M) && NoTrap(c, n, m)
    requires FirstFree(c, k, m, taken, 0) == Some(j)
    ensures IsMatching(c, k + 1, n, m, taken + {j}, R)
    ensures |R| + 1 >= |M|
  {
    if v :| k in M && v in M && v != k && M[v] == j {
      assert SharesAfter(c, m, k, v, j);
      FirstFreeIsFirst(c, k, m, taken, 0);
      assert M[k] > j;
      HandOver(c, n, m, k, taken, M, v);
      R := Without(M, k, j)[v := M[k]];
    } else {
      WithoutIsMatching(c, n, m, k, taken, M, j);
      WithoutSize(c, n, m, k, taken, M, j);
      R := Without(M, k, j);
    }
  }

  /** Without a trap the first-fit assignment is a largest one. */
  lemma {:induction false} OptimalWithoutTrap(c: Compat, n: nat, m: nat, k: nat, taken: set<nat>, M: map<nat, nat>)
    requires k <= n && IsMatching(c, k, n, m, taken, M) && NoTrap(c, n, m)
    ensures |M| <= Hits(c, n, m, k, taken)
    decreases n - k
  {
    hide IsMatching, NoTrap;
    if k == n {
      NothingToPlace(c, n, m, taken, M);
    } else {
      match FirstFree(c, k, m, taken, 0)
      case None =>
        UnplacedIsUnplaceable(c, n, m, k, taken, M);
        OptimalWithoutTrap(c, n, m, k + 1, taken, M);
      case Some(j) =>
        var R := Exchange(c, n, m, k, taken, M, j);
        OptimalWithoutTrap(c, n, m, k + 1, taken + {j}, R);
    }
  }

  /** Under uniform compatibility the first-fit assignment is a largest one. */
  lemma OptimalWhenUniform(c: Compat, n: nat, m: nat, k: nat, taken: set<nat>, M: map<nat, nat>)
    requires k <= n && IsMatching(c, k, n, m, taken, M) && Uniform(c, n, m)
    ensures |M| <= Hits(c, n, m, k, taken)
  {
    forall v: nat, w: nat, i: nat | v < w < n && i < m && c(v, i) && c(w, i) ensures SharesAfter(c, m, v, w, i) {
      assert SameNeighbours(c, m, v, w);
    }
    OptimalWithoutTrap(c, n, m, k, taken, M);
  }

  // ---------- Exactly when first fit is best ----------

  /** First fit makes a largest assignment. */
  ghost predicate IsBest(c: Compat, n: nat, m: nat) {
    forall M :: IsMatching(c, 0, n, m, {}, M) ==> |M| <= Hits(c, n, m, 0, {})
  }

  /** `c'` is `c` between the left items `l` and the right items `r`. */
  ghost predicate IsPartOf(c': Compat, c: Compat, l: seq<nat>, r: seq<nat>) {
    forall a: nat, b: nat :: a < |l| && b < |r| ==> c'(a, b) == c(l[a], r[b])
  }

  function Chosen(c: Compat, l: seq<nat>, r: seq<nat>): Compat {
    (a: nat, b: nat) => a < |l| && b < |r| && c(l[a], r[b])
  }

  lemma TwoTrapped(c: Compat)
    requires c(0, 0) && !c(1, 1)
    ensures Hits(c, 2, 2, 0, {}) == 1
  {
    assert FirstFree(c, 1, 2, {0}, 0) == FirstFree(c, 1, 2, {0}, 1) == FirstFree(c, 1, 2, {0}, 2);
    assert {} + {0} == {0 as nat};
    assert Hits(c, 2, 2, 1, {0}) == Hits(c, 2, 2, 2, {0});
  }

  /** A trap of two items on either side: first fit places one item, both could be placed. */
  lemma TwoInTrap(c: Compat)
    requires c(0, 0) && c(0, 1) && c(1, 0) && !c(1, 1)
    ensures Hits(c, 2, 2, 0, {}) == 1
    ensures exists M :: IsMatching(c, 0, 2, 2, {}, M) && |M| == 2
    ensures !IsBest(c, 2, 2)
  {
    hide Hits;
    TwoTrapped(c);
    var M: map<nat, nat> := map[0 := 1, 1 := 0];
    assert M.Keys == {0, 1};
    assert IsMatching(c, 0, 2, 2, {}, M);
  }

  lemma NoTrapIsBest(c: Compat, n: nat, m: nat)
    requires NoTrap(c, n, m)
    ensures IsBest(c, n, m)
  {
    hide IsMatching;
    forall M | IsMatching(c, 0, n, m, {}, M) ensures |M| <= Hits(c, n, m, 0, {}) {
      OptimalWithoutTrap(c, n, m, 0, {}, M);
    }
  }

  lemma NoTrapInPart(c': Compat, c: Compat, n: nat, m: nat, l: seq<nat>, r: seq<nat>)
    requires NoTrap(c, n, m) && IsPart(l, n) && IsPart(r, m) && IsPartOf(c', c, l, r)
    ensures NoTrap(c', |l|, |r|)
  {
    forall v: nat, w: nat, i: nat | v < w < |l| && i < |r| && c'(v, i) && c'(w, i) ensures SharesAfter(c', |r|, v, w, i) {
      assert SharesAfter(c, m, l[v], l[w], r[i]);
    }
  }

  /**
   First fit is best on every part of the two lists, in their order, exactly when there is no trap.
   (On one list alone it can also be best because nothing else competes.)
   */
  lemma BestIffNoTrap(c: Compat, n: nat, m: nat)
    ensures NoTrap(c, n, m) <==>
      forall l, r :: IsPart(l, n) && IsPart(r, m) ==> IsBest(Chosen(c, l, r), |l|, |r|)
  {
    hide IsBest;
    if NoTrap(c, n, m) {
      forall l, r | IsPart(l, n) && IsPart(r, m) ensures IsBest(Chosen(c, l, r), |l|, |r|) {
        NoTrapInPart(Chosen(c, l, r), c, n, m, l, r);
        NoTrapIsBest(Chosen(c, l, r), |l|, |r|);
      }
    } else {
      var l, r := Trap(c, n, m);
      TwoInTrap(Chosen(c, l, r));
    }
  }

  /** Two left and two right items on which first fit fails. */
  lemma Trap(c: Compat, n: nat, m: nat) returns (l: seq<nat>, r: seq<nat>)
    requires !NoTrap(c, n, m)
    ensures |l| == |r| == 2 && IsPart(l, n) && IsPart(r, m)
    ensures c(l[0], r[0]) && c(l[0], r[1]) && c(l[1], r[0]) && !c(l[1], r[1])
  {
    var v: nat, w: nat, i: nat :| v < w < n && i < m && c(v, i) && c(w, i) && !SharesAfter(c, m, v, w, i);
    var j: nat :| i < j < m && c(v, j) && !c(w, j);
    l, r := [v, w], [i, j];
  }

  /** First fit is best on every choice of items, in every order, exactly when compatibility is uniform. */
  lemma BestInAnyOrderIffUniform(c: Compat, n: nat, m: nat)
    ensures Uniform(c, n, m) <==>
      forall l, r :: IsChoice(l, n) && IsChoice(r, m) ==> IsBest(Chosen(c, l, r), |l|, |r|)
  {
    hide IsBest;
    if Uniform(c, n, m) {
      forall l, r | IsChoice(l, n) && IsChoice(r, m) ensures IsBest(Chosen(c, l, r), |l|, |r|) {
        UniformHasNoTrap(c, n, m, l, r);
        NoTrapIsBest(Chosen(c, l, r), |l|, |r|);
      }
    } else {
      var v: nat, w: nat, i: nat :| v < n && w < n && i < m && c(v, i) && c(w, i) && !SameNeighbours(c, m, v, w);
      var j: nat :| j < m && c(v, j) != c(w, j);
      var l, r := if c(v, j) then [v, w] else [w, v], [i, j];
      assert IsChoice(l, n) && IsChoice(r, m);
      TwoInTrap(Chosen(c, l, r));
    }
  }

  lemma UniformHasNoTrap(c: Compat, n: nat, m: nat, l: seq<nat>, r: seq<nat>)
    requires Uniform(c, n, m) && IsChoice(l, n) && IsChoice(r, m)
    ensures NoTrap(Chosen(c, l, r), |l|, |r|)
  {
    var c' := Chosen(c, l, r);
    forall v: nat, w: nat, i: nat | v < w < |l| && i < |r| && c'(v, i) && c'(w, i) ensures SharesAfter(c', |r|, v, w, i) {
      assert c(l[v], r[i]) && c(l[w], r[i]);
      assert SameNeighbours(c, m, l[v], l[w]);
    }
  }

  /** Only the pairs in range matter. */
  lemma {:induction false} SameFirstFree(c: Compat, c': Compat, w: nat, m: nat, taken: set<nat>, j: nat)
    requires forall i: nat :: i < m ==> c(w, i) == c'(w, i)
    ensures FirstFree(c, w, m, taken, j) == FirstFree(c', w, m, taken, j)
    decreases m - j
  {
    if j < m {
      SameFirstFree(c, c', w, m, taken, j + 1);
    }
  }

  lemma {:induction false} SameHits(c: Compat, c': Compat, n: nat, m: nat, k: nat, taken: set<nat>)
    requires forall w: nat, i: nat :: i < m ==> c(w, i) == c'(w, i)
    ensures Hits(c, n, m, k, taken) == Hits(c', n, m, k, taken)
    decreases n - k
  {
    if k < n {
      SameFirstFree(c, c', k, m, taken, 0);
      match FirstFree(c, k, m, taken, 0)
      case None => SameHits(c, c', n, m, k + 1, taken);
      case Some(j) => SameHits(c, c', n, m, k + 1, taken + {j});
    }
  }

  /** Adding right item `m` changes the search only where it found nothing before. */
  lemma {:induction false} FirstFreeMore(c: Compat, w: nat, m: nat, taken: set<nat>, j: nat)
    requires j <= m
    ensures FirstFree(c, w, m + 1, taken, j) ==
      var f := FirstFree(c, w, m, taken, j);
      if f.Some? then f else if m !in taken && c(w, m) then Some(m) else None
    decreases m - j
  {
    if j < m {
      FirstFreeMore(c, w, m, taken, j + 1);
    }
  }

  lemma {:induction false} FirstFreeIgnores(c: Compat, w: nat, m: nat, taken: set<nat>, j: nat)
    ensures FirstFree(c, w, m, taken + {m}, j) == FirstFree(c, w, m, taken, j)
    decreases m - j
  {
    if j < m {
      FirstFreeIgnores(c, w, m, taken, j + 1);
    }
  }

  /** Once the new right item is taken, the two runs agree. */
  lemma {:induction false} SameAfterwards(c: Compat, n: nat, m: nat, k: nat, taken: set<nat>)
    requires m !in taken
    ensures Hits(c, n, m + 1, k, taken + {m}) == Hits(c, n, m, k, taken)
    decreases n - k
  {
    if k < n {
      FirstFreeMore(c, k, m, taken + {m}, 0);
      FirstFreeIgnores(c, k, m, taken, 0);
      match FirstFree(c, k, m, taken, 0)
      case None => SameAfterwards(c, n, m, k + 1, taken);
      case Some(j) =>
        assert taken + {m} + {j} == taken + {j} + {m};
        SameAfterwards(c, n, m, k + 1, taken + {j});
    }
  }

  /** One more right item at the end adds one assignment or none. */
  lemma {:induction false} OneMoreItem(c: Compat, n: nat, m: nat, k: nat, taken: set<nat>)
    requires m !in taken
    ensures Hits(c, n, m, k, taken) <= Hits(c, n, m + 1, k, taken) <= Hits(c, n, m, k, taken) + 1
    decreases n - k
  {
    if k < n {
      FirstFreeMore(c, k, m, taken, 0);
      match FirstFree(c, k, m, taken, 0)
      case Some(j) => OneMoreItem(c, n, m, k + 1, taken + {j});
      case None =>
        if c(k, m) {
          SameAfterwards(c, n, m, k + 1, taken);
        } else {
          OneMoreItem(c, n, m, k + 1, taken);
        }
    }
  }

  /** Nothing is left that could still be paired: every unassigned left item has no free partner. */
  lemma {:induction false} NoPairLeftOver(c: Compat, n: nat, m: nat, k: nat, taken: set<nat>, w: nat, i: nat)
    requires k <= w < n && i < m && c(w, i)
    ensures w in Assign(c, n, m, k, taken) || i in taken
         || exists v :: v in Assign(c, n, m, k, taken) && Assign(c, n, m, k, taken)[v] == i
    decreases n - k
  {
    if k == w {
      FirstFreeIsFirst(c, k, m, taken, 0);
    } else {
      match FirstFree(c, k, m, taken, 0)
      case None => NoPairLeftOver(c, n, m, k + 1, taken, w, i);
      case Some(j) =>
        NoPairLeftOver(c, n, m, k + 1, taken + {j}, w, i);
        var rest := Assign(c, n, m, k + 1, taken + {j});
        var M := rest[k := j];
        assert M == Assign(c, n, m, k, taken) && M[k] == j;
        if v :| v in rest && rest[v] == i {
          assert v in M && M[v] == i;
        }
    }
  }

  // ---------- Exactly when the order of the right items does not matter ----------

  /** `w` can take whatever `v` can take. */
  ghost predicate SharesAll(c: Compat, m: nat, v: nat, w: nat) {
    forall j: nat :: j < m && c(v, j) ==> c(w, j)
  }

  /** Of two left items that share a right item, the later one can take whatever the earlier one can. */
  ghost predicate Nested(c: Compat, n: nat, m: nat) {
    forall v: nat, w: nat, i: nat :: v < w < n && i < m && c(v, i) && c(w, i) ==> SharesAll(c, m, v, w)
  }

  lemma NestedHasNoTrap(c': Compat, c: Compat, n: nat, m: nat, l: seq<nat>, r: seq<nat>, k: nat)
    requires Nested(c, n, m) && IsPart(l, n) && IsChoice(r, m) && IsPartOf(c', c, l, r) && k <= |l|
    ensures NoTrap(c', k, |r|)
  {
    forall v: nat, w: nat, i: nat | v < w < k && i < |r| && c'(v, i) && c'(w, i) ensures SharesAfter(c', |r|, v, w, i) {
      assert c(l[v], r[i]) && c(l[w], r[i]);
      assert SharesAll(c, m, l[v], l[w]);
    }
  }

  /** A matching carried over to another order of the right items. */
  lemma CarryOver(c': Compat, c'': Compat, c: Compat, m: nat, l: seq<nat>, r: seq<nat>, r': seq<nat>, k: nat, M: map<nat, nat>)
    returns (R: map<nat, nat>)
    requires IsPartOf(c', c, l, r) && IsPartOf(c'', c, l, r') && Reorders(r, r', m) && k <= |l|
    requires IsMatching(c'', 0, k, |r'|, {}, M)
    ensures IsMatching(c', 0, k, |r|, {}, R) && |R| == |M|
  {
    R := map w | w in M :: IndexOf(r, r'[M[w]]);
    assert R.Keys == M.Keys;
    forall v, w | v in R && w in R && R[v] == R[w] ensures v == w {
      assert r'[M[v]] == r'[M[w]];
      assert M[v] == M[w];
    }
  }

  lemma HitsNoFewer(c': Compat, c'': Compat, c: Compat, n: nat, m: nat, l: seq<nat>, r: seq<nat>, r': seq<nat>, k: nat)
    requires Nested(c, n, m) && IsPart(l, n) && Reorders(r, r', m) && IsPartOf(c', c, l, r) && IsPartOf(c'', c, l, r') && k <= |l|
    ensures Hits(c'', k, |r'|, 0, {}) <= Hits(c', k, |r|, 0, {})
  {
    hide Nested, IsPart, IsPartOf, IsMatching, NoTrap, Hits;
    var M := Assign(c'', k, |r'|, 0, {});
    AssignIsMatching(c'', k, |r'|, 0, {});
    HitsCountAssignments(c'', k, |r'|, 0, {});
    var R := CarryOver(c', c'', c, m, l, r, r', k, M);
    NestedHasNoTrap(c', c, n, m, l, r, k);
    OptimalWithoutTrap(c', k, |r|, 0, {}, R);
  }

  /** What happens to the first `p` left items does not depend on how many follow. */
  lemma {:induction false} AssignPrefix(c: Compat, n: nat, m: nat, p: nat, k: nat, taken: set<nat>)
    requires p <= n
    ensures forall w :: w in Assign(c, p, m, k, taken) <==> w in Assign(c, n, m, k, taken) && w < p
    decreases n - k
  {
    if k < p {
      match FirstFree(c, k, m, taken, 0)
      case None => AssignPrefix(c, n, m, p, k + 1, taken);
      case Some(j) => AssignPrefix(c, n, m, p, k + 1, taken + {j});
    }
  }

  /** Left item `w` is placed exactly when it raises the number of hits. */
  lemma PlacedIffHit(c: Compat, n: nat, m: nat, w: nat)
    requires w < n
    ensures w in Assign(c, n, m, 0, {}) <==> Hits(c, w + 1, m, 0, {}) > Hits(c, w, m, 0, {})
  {
    hide Assign, Hits;
    AssignPrefix(c, n, m, w, 0, {});
    AssignPrefix(c, n, m, w + 1, 0, {});
    HitsCountAssignments(c, w, m, 0, {});
    HitsCountAssignments(c, w + 1, m, 0, {});
    var before, now := Assign(c, w, m, 0, {}), Assign(c, w + 1, m, 0, {});
    assert now.Keys == before.Keys + if w in Assign(c, n, m, 0, {}) then {w} else {};
  }

  /** When sharing is nested, every order of the right items gets the same left items placed. */
  lemma SamePlaced(c': Compat, c'': Compat, c: Compat, n: nat, m: nat, l: seq<nat>, r: seq<nat>, r': seq<nat>)
    requires Nested(c, n, m) && IsPart(l, n) && Reorders(r, r', m) && IsPartOf(c', c, l, r) && IsPartOf(c'', c, l, r')
    ensures Assign(c', |l|, |r|, 0, {}).Keys == Assign(c'', |l|, |r'|, 0, {}).Keys
  {
    hide Assign, Hits, Nested, IsPart, IsPartOf;
    forall w: nat | w < |l| ensures w in Assign(c', |l|, |r|, 0, {}) <==> w in Assign(c'', |l|, |r'|, 0, {}) {
      PlacedIffHit(c', |l|, |r|, w);
      PlacedIffHit(c'', |l|, |r'|, w);
      forall k: nat | k <= |l| ensures Hits(c', k, |r|, 0, {}) == Hits(c'', k, |r'|, 0, {}) {
        HitsNoFewer(c', c'', c, n, m, l, r, r', k);
        HitsNoFewer(c'', c', c, n, m, l, r', r, k);
      }
    }
  }

  lemma TwoServed(c: Compat)
    requires c(0, 0) && c(1, 1) && !c(1, 0)
    ensures Hits(c, 2, 2, 0, {}) == 2
  {
    assert FirstFree(c, 1, 2, {0}, 0) == FirstFree(c, 1, 2, {0}, 1) == Some(1);
    assert {} + {0} == {0 as nat};
    assert Hits(c, 2, 2, 2, {0} + {1}) == 0;
  }

  /** Otherwise two left and two right items are served fully in one order and not in the other. */
  lemma OrderTrap(c: Compat, n: nat, m: nat) returns (l: seq<nat>, r: seq<nat>, r': seq<nat>)
    requires !Nested(c, n, m)
    ensures |l| == |r'| == 2 && r == [r'[1], r'[0]] && IsPart(l, n) && Reorders(r, r', m)
    ensures forall c', c'' :: IsPartOf(c', c, l, r) && IsPartOf(c'', c, l, r') ==> Hits(c', 2, 2, 0, {}) == 1 && Hits(c'', 2, 2, 0, {}) == 2
  {
    hide Hits;
    var v: nat, w: nat, i: nat :| v < w < n && i < m && c(v, i) && c(w, i) && !SharesAll(c, m, v, w);
    var j: nat :| j < m && c(v, j) && !c(w, j);
    l, r, r' := [v, w], [i, j], [j, i];
    forall c', c'' | IsPartOf(c', c, l, r) && IsPartOf(c'', c, l, r')
      ensures Hits(c', 2, 2, 0, {}) == 1 && Hits(c'', 2, 2, 0, {}) == 2
    {
      TwoTrapped(c');
      TwoServed(c'');
    }
  }
}

/**
 The Pareto frontier of a benchmark axis (`computeParetoFrontier`, scripts/set-bench/report.ts):
 warm cost against pass rate, over exact reals.
 */
module Pareto {

  import opened Lists
  import Report

  type Row = Report.Row

  /** The pair the frontier is about. */
  datatype Point = Point(cost: real, passRate: real)

  function PointOf(r: Row): Point { Point(r.avgCostWarmUsd, r.passRate) }

  /** `b` is at least as good as `a` on both counts and better on one. */
  predicate Dominates(b: Point, a: Point) {
    && b.cost <= a.cost && b.passRate >= a.passRate
    && (b.cost < a.cost || b.passRate > a.passRate)
  }

  ghost predicate Dominated(rows: seq<Row>, p: Point) {
    exists b :: b in rows && Dominates(PointOf(b), p)
  }

  function CostOf(r: Row): real { r.avgCostWarmUsd }

  /** The library sort by cost. */
  function SortByCost(rows: seq<Row>): seq<Row> { SortBy(CostOf, rows) }

  // ---------- The program ----------

  ghost predicate HasPoint(rows: seq<Row>, p: Point) {
    exists r :: r in rows && PointOf(r) == p
  }

  /** What the outer loop has collected after the first `n` rows: one row of each frontier point met so far. */
  ghost predicate Collected(rows: seq<Row>, n: nat, seen: set<Point>, frontier: seq<Row>)
    requires n <= |rows|
  {
    && (forall p :: p in seen <==> HasPoint(rows[..n], p) && !Dominated(rows, p))
    && (forall p :: p in seen <==> HasPoint(frontier, p))
    && (forall r :: r in frontier ==> r in rows)
    && DistinctBy(PointOf, frontier)
  }

  /** Exactly the frontier: each undominated point once, cheapest first, and rising in both counts. */
  ghost predicate IsFrontier(rows: seq<Row>, frontier: seq<Row>) {
    && (forall r :: r in frontier ==> r in rows)
    && (forall p :: HasPoint(frontier, p) <==> HasPoint(rows, p) && !Dominated(rows, p))
    && (forall i, j :: 0 <= i < j < |frontier| ==>
          frontier[i].avgCostWarmUsd < frontier[j].avgCostWarmUsd && frontier[i].passRate < frontier[j].passRate)
  }

  method ComputeParetoFrontier(rows: seq<Row>) returns (frontier: seq<Row>)
    ensures IsFrontier(rows, frontier)
  {
    var seen: set<Point> := {};
    frontier := [];
    for n := 0 to |rows|
      invariant Collected(rows, n, seen, frontier)
    {
      var a := rows[n];
      var dominated := false;
      var k := 0;
      while k < |rows|
        invariant 0 <= k <= |rows|
        invariant !dominated ==> forall b :: b in rows[..k] ==> !Dominates(PointOf(b), PointOf(a))
        invariant dominated ==> Dominated(rows, PointOf(a))
      {
        var b := rows[k];
        if k != n && Dominates(PointOf(b), PointOf(a)) {
          dominated := true;
          break;
        }
        k := k + 1;
      }
      assert dominated <==> Dominated(rows, PointOf(a)) by {
        assert rows[..|rows|] == rows;
      }
      CollectOne(rows, n, seen, frontier);
      if dominated || PointOf(a) in seen { continue; }
      seen := seen + {PointOf(a)};
      frontier := frontier + [a];
    }
    SortedCollection(rows, seen, frontier);
    frontier := SortByCost(frontier);
  }

  lemma CollectOne(rows: seq<Row>, n: nat, seen: set<Point>, frontier: seq<Row>)
    requires n < |rows| && Collected(rows, n, seen, frontier)
    ensures var a := rows[n];
      if Dominated(rows, PointOf(a)) || PointOf(a) in seen then Collected(rows, n + 1, seen, frontier)
      else Collected(rows, n + 1, seen + {PointOf(a)}, frontier + [a])
  {
    var a := rows[n];
    assert rows[..n + 1] == rows[..n] + [a];
    PointAppend(rows[..n], a);
    PointAppend(frontier, a);
    if !(Dominated(rows, PointOf(a)) || PointOf(a) in seen) {
      DistinctAppend(frontier, a);
    }
  }

  lemma PointAppend(rows: seq<Row>, r: Row)
    ensures forall p :: HasPoint(rows + [r], p) <==> HasPoint(rows, p) || p == PointOf(r)
  {
    forall p ensures HasPoint(rows + [r], p) <==> HasPoint(rows, p) || p == PointOf(r) {
      assert r in rows + [r];
      if HasPoint(rows, p) {
        var x :| x in rows && PointOf(x) == p;
        assert x in rows + [r];
      }
    }
  }

  lemma DistinctAppend(rows: seq<Row>, r: Row)
    requires DistinctBy(PointOf, rows) && !HasPoint(rows, PointOf(r))
    ensures DistinctBy(PointOf, rows + [r])
  {
    forall i | 0 <= i < |rows| ensures PointOf(rows[i]) != PointOf(r) {
      assert rows[i] in rows;
    }
  }

  lemma SortedCollection(rows: seq<Row>, seen: set<Point>, frontier: seq<Row>)
    requires Collected(rows, |rows|, seen, frontier)
    ensures IsFrontier(rows, SortByCost(frontier))
  {
    var sorted := SortByCost(frontier);
    SortSorts(CostOf, frontier);
    SortDistinct(CostOf, PointOf, frontier);
    SameMembers(sorted, frontier);
    assert rows[..|rows|] == rows;
    forall p ensures HasPoint(sorted, p) <==> HasPoint(rows, p) && !Dominated(rows, p) {
      assert HasPoint(sorted, p) <==> HasPoint(frontier, p);
      assert p in seen <==> HasPoint(frontier, p);
    }
    forall i, j | 0 <= i < j < |sorted|
      ensures sorted[i].avgCostWarmUsd < sorted[j].avgCostWarmUsd && sorted[i].passRate < sorted[j].passRate
    {
      assert sorted[i] in rows && sorted[j] in rows;
      assert CostOf(sorted[i]) <= CostOf(sorted[j]) && PointOf(sorted[i]) != PointOf(sorted[j]);
      assert HasPoint(sorted, PointOf(sorted[i])) && HasPoint(sorted, PointOf(sorted[j]));
      assert !Dominates(PointOf(sorted[i]), PointOf(sorted[j])) && !Dominates(PointOf(sorted[j]), PointOf(sorted[i]));
    }
  }

  // ---------- What the frontier is good for ----------

  /** Every row is on the frontier or beaten by a row that is. */
  lemma {:induction false} FrontierCovers(rows: seq<Row>, frontier: seq<Row>, a: Row)
    requires IsFrontier(rows, frontier) && a in rows
    ensures HasPoint(frontier, PointOf(a)) || exists f :: f in frontier && Dominates(PointOf(f), PointOf(a))
    decreases |Dominators(rows, PointOf(a))|
  {
    if Dominated(rows, PointOf(a)) {
      var b :| b in rows && Dominates(PointOf(b), PointOf(a));
      FewerDominators(rows, b, a);
      FrontierCovers(rows, frontier, b);
      if HasPoint(frontier, PointOf(b)) {
        var f :| f in frontier && PointOf(f) == PointOf(b);
        assert Dominates(PointOf(f), PointOf(a));
      } else {
        var f :| f in frontier && Dominates(PointOf(f), PointOf(b));
        assert Dominates(PointOf(f), PointOf(a));
      }
    } else {
      assert HasPoint(rows, PointOf(a));
    }
  }

  ghost function Dominators(rows: seq<Row>, p: Point): set<Row> {
    set r | r in rows && Dominates(PointOf(r), p)
  }

  lemma FewerDominators(rows: seq<Row>, b: Row, a: Row)
    requires b in rows && Dominates(PointOf(b), PointOf(a))
    ensures |Dominators(rows, PointOf(b))| < |Dominators(rows, PointOf(a))|
  {
    var less, more := Dominators(rows, PointOf(b)), Dominators(rows, PointOf(a));
    assert less <= more && b in more - less;
    assert more == less + (more - less);
  }

  /** The points of the frontier, in order, do not depend on the order of the rows. */
  lemma FrontierIsUnique(rows: seq<Row>, rows': seq<Row>, f: seq<Row>, g: seq<Row>)
    requires IsFrontier(rows, f) && IsFrontier(rows', g)
    requires multiset(rows) == multiset(rows')
    ensures |f| == |g| && forall i :: 0 <= i < |f| ==> PointOf(f[i]) == PointOf(g[i])
  {
    assert forall r :: r in rows <==> r in multiset(rows);
    assert forall r :: r in rows' <==> r in multiset(rows');
    forall p ensures HasPoint(f, p) <==> HasPoint(g, p) {
      assert HasPoint(rows, p) <==> HasPoint(rows', p);
      assert Dominated(rows, p) <==> Dominated(rows', p);
    }
    RisingUnique(f, g);
  }

  ghost predicate Rising(f: seq<Row>) {
    forall i, j :: 0 <= i < j < |f| ==> f[i].avgCostWarmUsd < f[j].avgCostWarmUsd
  }

  lemma {:induction false} RisingUnique(f: seq<Row>, g: seq<Row>)
    requires Rising(f) && Rising(g) && forall p :: HasPoint(f, p) <==> HasPoint(g, p)
    ensures |f| == |g| && forall i :: 0 <= i < |f| ==> PointOf(f[i]) == PointOf(g[i])
  {
    hide HasPoint;
    if f == [] || g == [] {
      OwnPoints(f);
      OwnPoints(g);
    } else {
      var m, n := |f| - 1, |g| - 1;
      SameLast(f, g);
      assert f == f[..m] + [f[m]] && g == g[..n] + [g[n]];
      PointAppend(f[..m], f[m]);
      PointAppend(g[..n], g[n]);
      RisingNotLast(f);
      RisingNotLast(g);
      RisingUnique(f[..m], g[..n]);
    }
  }

  lemma OwnPoints(f: seq<Row>)
    ensures if f == [] then forall p :: !HasPoint(f, p) else HasPoint(f, PointOf(f[0])) && HasPoint(f, PointOf(f[|f| - 1]))
  {
  }

  lemma SameLast(f: seq<Row>, g: seq<Row>)
    requires f != [] && g != []
    requires Rising(f) && Rising(g) && forall p :: HasPoint(f, p) <==> HasPoint(g, p)
    ensures PointOf(f[|f| - 1]) == PointOf(g[|g| - 1])
  {
    OwnPoints(f);
    OwnPoints(g);
    var x, y := PointOf(f[|f| - 1]), PointOf(g[|g| - 1]);
    assert HasPoint(g, x) && HasPoint(f, y);
  }

  lemma RisingNotLast(f: seq<Row>)
    requires Rising(f) && f != []
    ensures !HasPoint(f[..|f| - 1], PointOf(f[|f| - 1]))
  {
  }
}

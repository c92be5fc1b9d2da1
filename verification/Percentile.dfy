/**
 Linear-interpolation percentiles over exact reals (`percentile`,
 scripts/set-bench/report.ts).
 */
module Percentile {
  import opened Lists
  import opened Wrappers

  function Itself(x: real): real { x }

  ghost predicate Ascending(s: seq<real>) {
    SortedBy(Itself, s)
  }

  function Rank(n: nat, p: real): real
    requires n > 0
  {
    (p / 100.0) * (n - 1) as real
  }

  /** The value at a fractional position; None where the program would read past either end. */
  function At(s: seq<real>, rank: real): Option<real> {
    var lo := rank.Floor;
    var hi := if rank == lo as real then lo else lo + 1;
    if lo < 0 || hi >= |s| then None
    else if lo == hi then Some(s[lo])
    else Some(Mix(s[lo], s[hi], rank - lo as real))
  }

  function Mix(x: real, y: real, frac: real): real {
    x * (1.0 - frac) + y * frac
  }

  function Percentile(s: seq<real>, p: real): Option<real> {
    if |s| == 0 then Some(0.0)
    else if |s| == 1 then Some(s[0])
    else At(s, Rank(|s|, p))
  }

  lemma RankRange(n: nat, p: real)
    requires n > 1
    ensures 0.0 <= Rank(n, p) <= (n - 1) as real <==> 0.0 <= p <= 100.0
    ensures Rank(n, 0.0) == 0.0 && Rank(n, 100.0) == (n - 1) as real
  {
    var q, m := p / 100.0, (n - 1) as real;
    assert q < 0.0 ==> q * m < 0.0;
    assert q > 1.0 ==> q * m > m;
    assert 0.0 <= q <= 1.0 ==> 0.0 <= q * m <= m;
  }

  lemma RankMonotone(n: nat, p: real, q: real)
    requires n > 1 && p <= q
    ensures Rank(n, p) <= Rank(n, q)
  {
    assert q / 100.0 - p / 100.0 >= 0.0;
    assert (q / 100.0 - p / 100.0) * (n - 1) as real >= 0.0;
  }

  lemma ScaleMonotone(d: real, f: real, g: real)
    requires 0.0 <= d && f <= g
    ensures d * f <= d * g
  {
    assert d * (g - f) >= 0.0;
  }

  lemma MixMonotone(x: real, y: real, f: real, g: real)
    requires x <= y && 0.0 <= f <= g <= 1.0
    ensures x <= Mix(x, y, f) <= Mix(x, y, g) <= y
  {
    var d := y - x;
    assert Mix(x, y, f) == x + d * f && Mix(x, y, g) == x + d * g;
    ScaleMonotone(d, 0.0, f);
    ScaleMonotone(d, f, g);
    ScaleMonotone(d, g, 1.0);
    assert d * 1.0 == d && d * 0.0 == 0.0;
    assert d * g <= d;
  }

  /** A value lies between the entries at the floor and the ceiling of its position. */
  lemma AtBetween(s: seq<real>, r: real)
    requires Ascending(s) && 0.0 <= r <= (|s| - 1) as real
    ensures At(s, r).Some? && s[r.Floor] <= At(s, r).value
    ensures r.Floor + 1 < |s| ==> At(s, r).value <= s[r.Floor + 1]
    ensures At(s, r).value <= s[|s| - 1] && s[0] <= At(s, r).value
  {
    var lo := r.Floor;
    if r != lo as real {
      MixMonotone(s[lo], s[lo + 1], r - lo as real, r - lo as real);
    }
  }

  /** Moving right never lowers the value, within one gap or across entries. */
  lemma AtMonotone(s: seq<real>, r: real, t: real)
    requires Ascending(s) && 0.0 <= r <= t <= (|s| - 1) as real
    ensures At(s, r).Some? && At(s, t).Some? && At(s, r).value <= At(s, t).value
  {
    AtBetween(s, r);
    AtBetween(s, t);
    var lo := r.Floor;
    if lo == t.Floor {
      if r != lo as real {
        MixMonotone(s[lo], s[lo + 1], r - lo as real, t - lo as real);
      }
    } else {
      assert lo + 1 <= t.Floor;
      assert At(s, r).value <= s[lo + 1] <= s[t.Floor];
    }
  }

  /** With two or more values there is a percentile exactly for p from 0 to 100. */
  lemma PercentileDefined(s: seq<real>, p: real)
    ensures Percentile(s, p).Some? <==> |s| <= 1 || 0.0 <= p <= 100.0
  {
    if |s| > 1 {
      RankRange(|s|, p);
    }
  }

  lemma PercentileBounds(s: seq<real>, p: real)
    requires Ascending(s) && s != [] && 0.0 <= p <= 100.0
    ensures Percentile(s, p).Some? && s[0] <= Percentile(s, p).value <= s[|s| - 1]
    ensures Percentile(s, 0.0) == Some(s[0]) && Percentile(s, 100.0) == Some(s[|s| - 1])
  {
    if |s| > 1 {
      RankRange(|s|, p);
      AtBetween(s, Rank(|s|, p));
    }
  }

  lemma PercentileMonotone(s: seq<real>, p: real, q: real)
    requires Ascending(s) && 0.0 <= p <= q <= 100.0
    ensures Percentile(s, p).Some? && Percentile(s, q).Some?
    ensures Percentile(s, p).value <= Percentile(s, q).value
  {
    if |s| > 1 {
      RankRange(|s|, p);
      RankRange(|s|, q);
      RankMonotone(|s|, p, q);
      AtMonotone(s, Rank(|s|, p), Rank(|s|, q));
    }
  }

  /** Between two neighbouring entries the value rises in proportion to the rank. */
  lemma PercentileBetween(s: seq<real>, k: nat, f: real, p: real)
    requires k + 1 < |s| && 0.0 <= f <= 1.0
    requires p == 100.0 * (k as real + f) / (|s| - 1) as real
    ensures Percentile(s, p).Some? && Percentile(s, p).value - s[k] == f * (s[k + 1] - s[k])
  {
    var m := (|s| - 1) as real;
    RankOf(|s|, k as real + f, p);
    if f < 1.0 {
      assert Rank(|s|, p).Floor == k;
      assert f * (s[k + 1] - s[k]) == f * s[k + 1] - f * s[k];
      assert s[k] * (1.0 - f) == s[k] - s[k] * f;
    } else {
      assert Rank(|s|, p).Floor == k + 1;
    }
  }

  lemma RankOf(n: nat, r: real, p: real)
    requires n > 1 && p == 100.0 * r / (n - 1) as real
    ensures Rank(n, p) == r
  {
    var m := (n - 1) as real;
    assert p / 100.0 == r / m;
    assert (r / m) * m == r;
  }

  /** Nothing has percentile 0, and one value is its own percentile, whatever p. */
  lemma PercentileOfFew(x: real, p: real)
    ensures Percentile([], p) == Some(0.0) && Percentile([x], p) == Some(x)
  {
  }

  /** The percentile of entry k is entry k. */
  lemma PercentileHitsEntries(s: seq<real>, k: nat)
    requires |s| > 1 && k < |s|
    ensures Percentile(s, 100.0 * k as real / (|s| - 1) as real) == Some(s[k])
  {
    var m := (|s| - 1) as real;
    ScaleBack(k as real, m);
    assert Rank(|s|, 100.0 * k as real / m) == k as real;
  }

  lemma ScaleBack(x: real, m: real)
    requires m != 0.0
    ensures ((100.0 * x / m) / 100.0) * m == x
  {
    var q := x / m;
    assert q * m == x;
    assert 100.0 * x / m == 100.0 * q;
  }
}

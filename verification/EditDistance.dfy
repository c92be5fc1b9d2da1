/**
 Word error rate by edit distance (scripts/bench-transcribe.ts).

 `Levenshtein` is the two-row dynamic program.  What it is for is stated without
 reference to it: an edit script is a list of single insertions, deletions and
 substitutions, each applied to the whole sequence, and the distance is the length of
 a shortest script that turns `a` into `b`.
 */
module EditDistance {
  import opened Wrappers

  // ---------- Edit scripts: the independent definition ----------

  datatype Edit<T> = Insert(at: nat, x: T) | Delete(at: nat) | Substitute(at: nat, x: T)

  predicate Applicable<T>(e: Edit<T>, s: seq<T>) {
    if e.Insert? then e.at <= |s| else e.at < |s|
  }

  function Apply<T>(e: Edit<T>, s: seq<T>): seq<T>
    requires Applicable(e, s)
  {
    match e
    case Insert(i, x) => s[..i] + [x] + s[i..]
    case Delete(i) => s[..i] + s[i + 1..]
    case Substitute(i, x) => s[..i] + [x] + s[i + 1..]
  }

  /** Runs a script from left to right; None when an edit falls outside the sequence. */
  function Run<T>(script: seq<Edit<T>>, s: seq<T>): Option<seq<T>> {
    if script == [] then Some(s)
    else if !Applicable(script[0], s) then None
    else Run(script[1..], Apply(script[0], s))
  }

  /** `d` is the length of a shortest script that turns `a` into `b`. */
  ghost predicate IsEditDistance<T(!new)>(a: seq<T>, b: seq<T>, d: nat) {
    && (exists script: seq<Edit<T>> :: |script| == d && Run(script, a) == Some(b))
    && (forall script: seq<Edit<T>> :: Run(script, a) == Some(b) ==> d <= |script|)
  }

  // ---------- The recurrence ----------

  function Min(x: nat, y: nat): nat { if x <= y then x else y }

  function Cost<T(==)>(x: T, y: T): nat { if x == y then 0 else 1 }

  function Dist<T(==)>(a: seq<T>, b: seq<T>): nat
    decreases |a| + |b|
  {
    if a == [] then |b|
    else if b == [] then |a|
    else
      var a', b' := a[..|a| - 1], b[..|b| - 1];
      Min(Min(Dist(a', b) + 1, Dist(a, b') + 1), Dist(a', b') + Cost(a[|a| - 1], b[|b| - 1]))
  }

  // ---------- Metric laws ----------

  lemma {:induction false} DistBounds<T>(a: seq<T>, b: seq<T>)
    ensures |a| - |b| <= Dist(a, b) && |b| - |a| <= Dist(a, b)
    ensures Dist(a, b) <= if |a| <= |b| then |b| else |a|
    decreases |a| + |b|
  {
    if a != [] && b != [] {
      var a', b' := a[..|a| - 1], b[..|b| - 1];
      DistBounds(a', b);
      DistBounds(a, b');
      DistBounds(a', b');
    }
  }

  lemma {:induction false} DistSymmetric<T>(a: seq<T>, b: seq<T>)
    ensures Dist(a, b) == Dist(b, a)
    decreases |a| + |b|
  {
    if a != [] && b != [] {
      var a', b' := a[..|a| - 1], b[..|b| - 1];
      DistSymmetric(a', b);
      DistSymmetric(a, b');
      DistSymmetric(a', b');
    }
  }

  lemma {:induction false} DistZero<T>(a: seq<T>, b: seq<T>)
    ensures Dist(a, b) == 0 <==> a == b
    decreases |a| + |b|
  {
    if a != [] && b != [] {
      var a', b' := a[..|a| - 1], b[..|b| - 1];
      DistZero(a', b');
      assert a == a' + [a[|a| - 1]] && b == b' + [b[|b| - 1]];
    }
  }

  lemma {:induction false} DistTriangle<T>(a: seq<T>, b: seq<T>, c: seq<T>)
    ensures Dist(a, c) <= Dist(a, b) + Dist(b, c)
    decreases |a| + |b| + |c|
  {
    DistBounds(a, b);
    DistBounds(b, c);
    DistBounds(a, c);
    if a != [] && b != [] && c != [] {
      var a', b', c' := a[..|a| - 1], b[..|b| - 1], c[..|c| - 1];
      DistTriangle(a', b, c);    // the last edit of a -> b deletes
      DistTriangle(a, b, c');    // the last edit of b -> c inserts
      DistTriangle(a, b', c);    // inserted by the first script, deleted by the second
      DistTriangle(a, b', c');
      DistTriangle(a', b', c);
      DistTriangle(a', b', c');
    }
  }

  // ---------- One edit moves the distance by at most one ----------

  lemma {:induction false} DistCommonSuffix<T>(p: seq<T>, q: seq<T>, t: seq<T>)
    ensures Dist(p + t, q + t) <= Dist(p, q)
    decreases |t|
  {
    if t == [] {
      assert p + t == p && q + t == q;
    } else {
      var t' := t[..|t| - 1];
      DistCommonSuffix(p, q, t');
      assert (p + t)[..|p + t| - 1] == p + t' && (q + t)[..|q + t| - 1] == q + t';
    }
  }

  lemma DistAppend<T>(p: seq<T>, x: T)
    ensures Dist(p, p + [x]) <= 1 && Dist(p + [x], p) <= 1
  {
    DistZero(p, p);
    assert (p + [x])[..|p|] == p;
    DistSymmetric(p, p + [x]);
  }

  lemma DistReplaceLast<T>(p: seq<T>, x: T, y: T)
    ensures Dist(p + [x], p + [y]) <= 1
  {
    DistZero(p, p);
    assert (p + [x])[..|p|] == p && (p + [y])[..|p|] == p;
  }

  lemma OneEditDistance<T>(e: Edit<T>, s: seq<T>)
    requires Applicable(e, s)
    ensures Dist(s, Apply(e, s)) <= 1
  {
    var p := s[..e.at];
    match e
    case Insert(i, x) =>
      assert s == p + s[i..];
      DistAppend(p, x);
      DistCommonSuffix(p, p + [x], s[i..]);
    case Delete(i) =>
      assert s == p + [s[i]] + s[i + 1..];
      DistAppend(p, s[i]);
      DistCommonSuffix(p + [s[i]], p, s[i + 1..]);
    case Substitute(i, x) =>
      assert s == p + [s[i]] + s[i + 1..];
      DistReplaceLast(p, s[i], x);
      DistCommonSuffix(p + [s[i]], p + [x], s[i + 1..]);
  }

  /** No script is shorter than the recurrence says. */
  lemma {:induction false} NoShorterScript<T>(script: seq<Edit<T>>, a: seq<T>, b: seq<T>)
    requires Run(script, a) == Some(b)
    ensures Dist(a, b) <= |script|
  {
    if script == [] {
      DistZero(a, b);
    } else {
      var a1 := Apply(script[0], a);
      NoShorterScript(script[1..], a1, b);
      OneEditDistance(script[0], a);
      DistTriangle(a, a1, b);
    }
  }

  // ---------- A script of exactly that length exists ----------

  lemma {:induction false} RunAppend<T>(script: seq<Edit<T>>, e: Edit<T>, s: seq<T>)
    requires Run(script, s).Some? && Applicable(e, Run(script, s).value)
    ensures Run(script + [e], s) == Some(Apply(e, Run(script, s).value))
  {
    if script == [] {
      assert Run([e][1..], Apply(e, s)) == Some(Apply(e, s));
    } else {
      assert (script + [e])[1..] == script[1..] + [e];
      RunAppend(script[1..], e, Apply(script[0], s));
    }
  }

  /** A script that works on `s` works in front of any later element. */
  lemma {:induction false} RunBefore<T>(script: seq<Edit<T>>, s: seq<T>, z: T)
    requires Run(script, s).Some?
    ensures Run(script, s + [z]) == Some(Run(script, s).value + [z])
  {
    if script != [] {
      assert Apply(script[0], s + [z]) == Apply(script[0], s) + [z];
      RunBefore(script[1..], Apply(script[0], s), z);
    }
  }

  lemma ScriptEndsWithInsert<T>(script: seq<Edit<T>>, a: seq<T>, b: seq<T>)
    requires b != [] && Run(script, a) == Some(b[..|b| - 1])
    ensures Run(script + [Insert(|b| - 1, b[|b| - 1])], a) == Some(b)
  {
    var e := Insert(|b| - 1, b[|b| - 1]);
    assert Apply(e, b[..|b| - 1]) == b;
    RunAppend(script, e, a);
  }

  lemma ScriptStartsWithDelete<T>(script: seq<Edit<T>>, a: seq<T>, b: seq<T>)
    requires a != [] && Run(script, a[..|a| - 1]) == Some(b)
    ensures Run([Delete(|a| - 1)] + script, a) == Some(b)
  {
    var e: Edit<T> := Delete(|a| - 1);
    assert Apply(e, a) == a[..|a| - 1];
    assert ([e] + script)[1..] == script;
  }

  lemma ScriptBeforeLast<T>(script: seq<Edit<T>>, a: seq<T>, b': seq<T>)
    requires a != [] && Run(script, a[..|a| - 1]) == Some(b')
    ensures Run(script, a) == Some(b' + [a[|a| - 1]])
  {
    RunBefore(script, a[..|a| - 1], a[|a| - 1]);
    assert a == a[..|a| - 1] + [a[|a| - 1]];
  }

  lemma ScriptEndsWithSubstitute<T>(script: seq<Edit<T>>, a: seq<T>, b: seq<T>, x: T)
    requires b != [] && Run(script, a) == Some(b[..|b| - 1] + [x])
    ensures Run(script + [Substitute(|b| - 1, b[|b| - 1])], a) == Some(b)
  {
    var e := Substitute(|b| - 1, b[|b| - 1]);
    assert Apply(e, b[..|b| - 1] + [x]) == b;
    RunAppend(script, e, a);
  }

  lemma RunNothing<T>(s: seq<T>)
    ensures Run([], s) == Some(s)
  {
  }

  lemma {:induction false} ShortestScript<T>(a: seq<T>, b: seq<T>) returns (script: seq<Edit<T>>)
    ensures |script| == Dist(a, b) && Run(script, a) == Some(b)
    decreases |a| + |b|
  {
    hide Run;
    if a == [] && b == [] {
      RunNothing(a);
      script := [];
    } else if a == [] || (b != [] && Dist(a, b) == Dist(a, b[..|b| - 1]) + 1) {
      script := ShortestScript(a, b[..|b| - 1]);
      ScriptEndsWithInsert(script, a, b);
      script := script + [Insert(|b| - 1, b[|b| - 1])];
    } else if b == [] || Dist(a, b) == Dist(a[..|a| - 1], b) + 1 {
      script := ShortestScript(a[..|a| - 1], b);
      ScriptStartsWithDelete(script, a, b);
      script := [Delete(|a| - 1)] + script;
    } else {
      script := ShortestScript(a[..|a| - 1], b[..|b| - 1]);
      ScriptBeforeLast(script, a, b[..|b| - 1]);
      if a[|a| - 1] == b[|b| - 1] {
        assert b[..|b| - 1] + [b[|b| - 1]] == b;
      } else {
        ScriptEndsWithSubstitute(script, a, b, a[|a| - 1]);
        script := script + [Substitute(|b| - 1, b[|b| - 1])];
      }
    }
  }

  /** The recurrence computes the length of a shortest edit script. */
  lemma DistIsEditDistance<T(!new)>(a: seq<T>, b: seq<T>)
    ensures IsEditDistance(a, b, Dist(a, b))
  {
    var script := ShortestScript(a, b);
    forall s: seq<Edit<T>> | Run(s, a) == Some(b) ensures Dist(a, b) <= |s| {
      NoShorterScript(s, a, b);
    }
  }

  // ---------- The two-row program ----------

  /** The full table that the program does not keep: t[i][j] is the distance of the prefixes. */
  ghost function Table<T>(a: seq<T>, b: seq<T>): seq<seq<nat>> {
    seq(|a| + 1, (i: nat) => seq(|b| + 1, (j: nat) => if i <= |a| && j <= |b| then Dist(a[..i], b[..j]) else 0))
  }

  ghost predicate IsGrid<T>(t: seq<seq<nat>>, a: seq<T>, b: seq<T>) {
    |t| == |a| + 1 && forall i :: 0 <= i <= |a| ==> |t[i]| == |b| + 1
  }

  /** Cell (i, j) follows from the three cells above and to the left of it. */
  ghost predicate Follows<T>(t: seq<seq<nat>>, a: seq<T>, b: seq<T>, i: nat, j: nat)
    requires IsGrid(t, a, b) && 0 < i <= |a| && 0 < j <= |b|
  {
    t[i][j] == Min(Min(t[i - 1][j] + 1, t[i][j - 1] + 1), t[i - 1][j - 1] + Cost(a[i - 1], b[j - 1]))
  }

  ghost predicate IsTable<T>(t: seq<seq<nat>>, a: seq<T>, b: seq<T>) {
    && IsGrid(t, a, b)
    && (forall j :: 0 <= j <= |b| ==> t[0][j] == j)
    && (forall i :: 0 <= i <= |a| ==> t[i][0] == i)
    && (forall i, j :: 0 < i <= |a| && 0 < j <= |b| ==> Follows(t, a, b, i, j))
  }

  lemma CellFollows<T>(a: seq<T>, b: seq<T>, i: nat, j: nat)
    requires 0 < i <= |a| && 0 < j <= |b|
    ensures Follows(Table(a, b), a, b, i, j)
  {
    var p, q := a[..i], b[..j];
    assert p[..i - 1] == a[..i - 1] && q[..j - 1] == b[..j - 1];
  }

  lemma {:induction false} TableCells<T>(a: seq<T>, b: seq<T>)
    ensures IsTable(Table(a, b), a, b)
    ensures Table(a, b)[|a|][|b|] == Dist(a, b)
  {
    forall i, j | 0 < i <= |a| && 0 < j <= |b| ensures Follows(Table(a, b), a, b, i, j) {
      CellFollows(a, b, i, j);
    }
    assert a[..|a|] == a && b[..|b|] == b;
  }

  method Levenshtein<T(==,!new)>(a: seq<T>, b: seq<T>) returns (d: nat)
    ensures d == Dist(a, b)
    ensures IsEditDistance(a, b, d)
  {
    ghost var t := Table(a, b);
    TableCells(a, b);
    DistIsEditDistance(a, b);
    d := FillTable(a, b, t);
  }

  /** The loops of the program, against any table that satisfies the recurrence. */
  method FillTable<T(==)>(a: seq<T>, b: seq<T>, ghost t: seq<seq<nat>>) returns (d: nat)
    requires IsTable(t, a, b)
    ensures d == t[|a|][|b|]
  {
    var m, n := |a|, |b|;
    if m == 0 { return n; }
    if n == 0 { return m; }
    var prev, curr := new nat[n + 1], new nat[n + 1];
    for j := 0 to n + 1
      invariant forall k :: 0 <= k < j ==> prev[k] == k
    {
      prev[j] := j;
    }
    for i := 1 to m + 1
      invariant forall k :: 0 <= k <= n ==> prev[k] == t[i - 1][k]
    {
      curr[0] := i;
      for j := 1 to n + 1
        invariant forall k :: 0 <= k <= n ==> prev[k] == t[i - 1][k]
        invariant forall k :: 0 <= k < j ==> curr[k] == t[i][k]
      {
        assert Follows(t, a, b, i, j);
        var cost := if a[i - 1] == b[j - 1] then 0 else 1;
        curr[j] := Min(Min(prev[j] + 1, curr[j - 1] + 1), prev[j - 1] + cost);
      }
      for j := 0 to n + 1
        invariant forall k :: 0 <= k <= n ==> curr[k] == t[i][k]
        invariant forall k :: 0 <= k < j ==> prev[k] == curr[k]
      {
        prev[j] := curr[j];
      }
    }
    d := prev[n];
  }

  // ---------- Word error rate ----------

  /** `wer` on the two normalised word lists. */
  function WordErrorRate<T(==)>(ref: seq<T>, hyp: seq<T>): real {
    if |ref| == 0 then if |hyp| == 0 then 0.0 else 1.0
    else Quotient(Dist(ref, hyp), |ref|)
  }

  function Quotient(d: nat, n: nat): (q: real)
    requires n > 0
    ensures q == 0.0 <==> d == 0
    ensures q > 1.0 <==> d > n
  {
    d as real / n as real
  }

  /** The rate is the number of edits for each word of the reference, and 1 for any words against none. */
  lemma EditsPerWord<T>(ref: seq<T>, hyp: seq<T>)
    ensures ref != [] ==> WordErrorRate(ref, hyp) * |ref| as real == Dist(ref, hyp) as real
    ensures ref == [] && hyp != [] ==> WordErrorRate(ref, hyp) == 1.0
  {
    hide Dist;
    if ref != [] {
      var d, n := Dist(ref, hyp) as real, |ref| as real;
      assert (d / n) * n == d;
    }
  }

  /** Zero means identical words; the rate passes 1 only when the transcript is longer. */
  lemma WordErrorRateMeaning<T>(ref: seq<T>, hyp: seq<T>)
    ensures WordErrorRate(ref, hyp) == 0.0 <==> ref == hyp
    ensures WordErrorRate(ref, hyp) > 1.0 ==> |hyp| > |ref| > 0
  {
    DistZero(ref, hyp);
    DistBounds(ref, hyp);
  }
}

// Lists: choosing entries by index, distinct entries, and the library sort.
module Lists {

  ghost predicate Distinct<T>(s: seq<T>) {
    forall i, j :: 0 <= i < j < |s| ==> s[i] != s[j]
  }

  ghost predicate DistinctBy<T(!new), K>(key: T -> K, s: seq<T>) {
    forall i, j :: 0 <= i < j < |s| ==> key(s[i]) != key(s[j])
  }

  // ---------- Choosing entries ----------

  /** Indices below `n`, each at most once, in any order. */
  ghost predicate IsChoice(at: seq<nat>, n: nat) {
    Distinct(at) && forall i :: 0 <= i < |at| ==> at[i] < n
  }

  /** Indices below `n` in rising order: a part of a list, with its order kept. */
  ghost predicate IsPart(at: seq<nat>, n: nat) {
    (forall i, j :: 0 <= i < j < |at| ==> at[i] < at[j]) && forall i :: 0 <= i < |at| ==> at[i] < n
  }

  /** The same indices in two orders. */
  ghost predicate Reorders(at: seq<nat>, at': seq<nat>, n: nat) {
    IsChoice(at, n) && IsChoice(at', n) && |at| == |at'| && forall x :: x in at <==> x in at'
  }

  function Pick<T>(s: seq<T>, at: seq<nat>): seq<T>
    requires forall i :: 0 <= i < |at| ==> at[i] < |s|
  {
    seq(|at|, i requires 0 <= i < |at| => s[at[i]])
  }

  /** Where `x` stands in the list. */
  function IndexOf(at: seq<nat>, x: nat): (i: nat)
    requires x in at
    ensures i < |at| && at[i] == x
  {
    if at[0] == x then 0 else 1 + IndexOf(at[1..], x)
  }

  function UpTo(n: nat): (at: seq<nat>)
    ensures |at| == n && forall i :: 0 <= i < n ==> at[i] == i
  {
    seq(n, i => i)
  }

  lemma KeepSnoc<T>(s: seq<T>, x: T, at: seq<nat>, on: bool) returns (more: seq<nat>)
    requires IsPart(at, |s|)
    ensures IsPart(more, |s| + 1) && Pick(s + [x], more) == Pick(s, at) + if on then [x] else []
    ensures forall i: nat :: i in more <==> i in at || (on && i == |s|)
  {
    more := at + if on then [|s|] else [];
  }

  lemma KeepCons<T>(x: T, s: seq<T>, at: seq<nat>, on: bool) returns (more: seq<nat>)
    requires IsPart(at, |s|)
    ensures IsPart(more, |s| + 1) && Pick([x] + s, more) == (if on then [x] else []) + Pick(s, at)
    ensures forall i: nat :: i in more <==> (on && i == 0) || (i > 0 && i - 1 in at)
  {
    var later := Shift(at, |s|);
    more := (if on then [0] else []) + later;
    PickShifted(x, s, at, later);
  }

  lemma Shift(at: seq<nat>, n: nat) returns (later: seq<nat>)
    requires IsPart(at, n)
    ensures IsPart(later, n + 1) && |later| == |at| && forall i :: 0 <= i < |at| ==> later[i] == at[i] + 1
    ensures forall i: nat :: i in later <==> i > 0 && i - 1 in at
  {
    later := seq(|at|, i requires 0 <= i < |at| => at[i] + 1);
    forall i: nat ensures i in later <==> i > 0 && i - 1 in at {
      if i > 0 && i - 1 in at {
        var j :| 0 <= j < |at| && at[j] == i - 1;
        assert later[j] == i;
      }
    }
  }

  lemma PickShifted<T>(x: T, s: seq<T>, at: seq<nat>, later: seq<nat>)
    requires IsPart(at, |s|) && IsPart(later, |s| + 1) && |later| == |at| && forall i :: 0 <= i < |at| ==> later[i] == at[i] + 1
    ensures IsPart([0] + later, |s| + 1) && Pick([x] + s, later) == Pick(s, at) && Pick([x] + s, [0] + later) == [x] + Pick(s, at)
  {
  }

  /** A part of a part is a part. */
  lemma PickPick<T>(s: seq<T>, at: seq<nat>, at': seq<nat>)
    requires IsPart(at, |s|) && IsPart(at', |at|)
    ensures IsPart(Pick(at, at'), |s|) && Pick(s, Pick(at, at')) == Pick(Pick(s, at), at')
  {
  }

  // ---------- Sorting ----------

  function InsertBy<T>(key: T -> real, x: T, sorted: seq<T>): seq<T> {
    if sorted == [] || key(x) < key(sorted[0]) then [x] + sorted
    else [sorted[0]] + InsertBy(key, x, sorted[1..])
  }

  /** The library sort by a number. */
  function SortBy<T>(key: T -> real, s: seq<T>): seq<T> {
    if s == [] then [] else InsertBy(key, s[|s| - 1], SortBy(key, s[..|s| - 1]))
  }

  ghost predicate SortedBy<T(!new)>(key: T -> real, s: seq<T>) {
    forall i, j :: 0 <= i < j < |s| ==> key(s[i]) <= key(s[j])
  }

  lemma {:induction false} InsertPermutes<T>(key: T -> real, x: T, sorted: seq<T>)
    ensures multiset(InsertBy(key, x, sorted)) == multiset{x} + multiset(sorted)
  {
    if sorted != [] && key(x) >= key(sorted[0]) {
      InsertPermutes(key, x, sorted[1..]);
      assert sorted == [sorted[0]] + sorted[1..];
    }
  }

  lemma SameMembers<T>(s: seq<T>, t: seq<T>)
    requires multiset(s) == multiset(t)
    ensures |s| == |t| && forall x :: x in s <==> x in t
  {
    assert |multiset(s)| == |s| && |multiset(t)| == |t|;
    assert forall x :: x in s <==> x in multiset(s);
    assert forall x :: x in t <==> x in multiset(t);
  }

  lemma {:induction false} InsertSorts<T(!new)>(key: T -> real, x: T, sorted: seq<T>)
    requires SortedBy(key, sorted)
    ensures SortedBy(key, InsertBy(key, x, sorted))
  {
    if sorted != [] && key(x) >= key(sorted[0]) {
      var rest := InsertBy(key, x, sorted[1..]);
      assert SortedBy(key, sorted[1..]);
      InsertSorts(key, x, sorted[1..]);
      InsertPermutes(key, x, sorted[1..]);
      forall y | y in rest ensures key(sorted[0]) <= key(y) {
        assert y in multiset(rest);
      }
      ConsSorted(key, sorted[0], rest);
    }
  }

  lemma ConsSorted<T(!new)>(key: T -> real, x: T, rest: seq<T>)
    requires SortedBy(key, rest) && forall y :: y in rest ==> key(x) <= key(y)
    ensures SortedBy(key, [x] + rest)
  {
  }

  lemma NothingSorted<T(!new)>(key: T -> real, s: seq<T>)
    requires s == []
    ensures SortedBy(key, s)
  {
  }

  /** The sort orders a list and loses nothing. */
  lemma {:induction false} SortSorts<T(!new)>(key: T -> real, s: seq<T>)
    ensures SortedBy(key, SortBy(key, s)) && multiset(SortBy(key, s)) == multiset(s)
  {
    hide SortedBy, InsertBy;
    if s == [] {
      NothingSorted(key, s);
    } else {
      var before, last := s[..|s| - 1], s[|s| - 1];
      SortSorts(key, before);
      InsertSorts(key, last, SortBy(key, before));
      InsertPermutes(key, last, SortBy(key, before));
      assert s == before + [last];
    }
  }

  lemma ConsDistinct<T(!new), K>(id: T -> K, x: T, rest: seq<T>)
    requires DistinctBy(id, rest) && forall y :: y in rest ==> id(x) != id(y)
    ensures DistinctBy(id, [x] + rest)
  {
  }

  lemma {:induction false} InsertDistinct<T(!new), K>(key: T -> real, id: T -> K, x: T, sorted: seq<T>)
    requires DistinctBy(id, sorted) && forall y :: y in sorted ==> id(y) != id(x)
    ensures DistinctBy(id, InsertBy(key, x, sorted))
  {
    if sorted != [] && key(x) >= key(sorted[0]) {
      var rest := InsertBy(key, x, sorted[1..]);
      assert DistinctBy(id, sorted[1..]);
      InsertDistinct(key, id, x, sorted[1..]);
      InsertPermutes(key, x, sorted[1..]);
      forall y | y in rest ensures id(sorted[0]) != id(y) {
        assert y in multiset(rest);
      }
      ConsDistinct(id, sorted[0], rest);
    } else {
      ConsDistinct(id, x, sorted);
    }
  }

  lemma {:induction false} SortDistinct<T(!new), K>(key: T -> real, id: T -> K, s: seq<T>)
    requires DistinctBy(id, s)
    ensures DistinctBy(id, SortBy(key, s))
  {
    hide InsertBy;
    if s != [] {
      var before, last := s[..|s| - 1], s[|s| - 1];
      SortDistinct(key, id, before);
      SortSorts(key, before);
      SameMembers(SortBy(key, before), before);
      InsertDistinct(key, id, last, SortBy(key, before));
    }
  }
}

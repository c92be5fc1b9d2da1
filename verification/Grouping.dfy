/**
 Grouping a list by a key with an insertion-ordered map of arrays, the loop shared by
 `groupByThread` (scripts/agent-efficiency/scenarios.ts) and `buildReport`
 (scripts/set-bench/report.ts).
 */
module Grouping {
  import opened Lists

  /** A JavaScript Map from keys to arrays: the keys in insertion order, and the arrays. */
  datatype Groups<K, T> = Groups(order: seq<K>, members: map<K, seq<T>>)

  /** The items with key `k`, in order. */
  function Select<T, K(==)>(items: seq<T>, key: T -> K, k: K): seq<T> {
    if items == [] then []
    else
      var last := items[|items| - 1];
      Select(items[..|items| - 1], key, k) + if key(last) == k then [last] else []
  }

  /** The keys in the order in which they first occur. */
  function FirstSeen<T, K(==)>(items: seq<T>, key: T -> K): seq<K> {
    if items == [] then []
    else
      var before, k := FirstSeen(items[..|items| - 1], key), key(items[|items| - 1]);
      if k in before then before else before + [k]
  }

  /** The order-preserving partition of the items by key. */
  ghost predicate IsGrouping<T, K(!new)>(items: seq<T>, key: T -> K, g: Groups<K, T>) {
    && g.order == FirstSeen(items, key)
    && (forall k :: k in g.members <==> k in g.order)
    && (forall k :: k in g.members ==> g.members[k] == Select(items, key, k))
  }

  method GroupBy<T, K(==, !new)>(items: seq<T>, key: T -> K) returns (g: Groups<K, T>)
    ensures IsGrouping(items, key, g)
  {
    var order: seq<K>, members: map<K, seq<T>> := [], map[];
    for i := 0 to |items|
      invariant IsGrouping(items[..i], key, Groups(order, members))
    {
      var s := items[i];
      assert items[..i + 1][..i] == items[..i];
      if key(s) in members {
        members := members[key(s) := members[key(s)] + [s]];
      } else {
        NotSeen(items[..i], key, key(s));
        order, members := order + [key(s)], members[key(s) := [s]];
      }
    }
    assert items[..|items|] == items;
    g := Groups(order, members);
  }

  lemma {:induction false} NotSeen<T, K>(items: seq<T>, key: T -> K, k: K)
    ensures k !in FirstSeen(items, key) <==> Select(items, key, k) == []
  {
    if items != [] {
      NotSeen(items[..|items| - 1], key, k);
    }
  }

  lemma {:induction false} FirstSeenDistinct<T, K>(items: seq<T>, key: T -> K)
    ensures Distinct(FirstSeen(items, key))
    ensures forall x :: x in items ==> key(x) in FirstSeen(items, key)
  {
    if items != [] {
      FirstSeenDistinct(items[..|items| - 1], key);
      assert items == items[..|items| - 1] + [items[|items| - 1]];
    }
  }

  lemma {:induction false} SelectMembers<T, K>(items: seq<T>, key: T -> K, k: K)
    ensures forall x :: x in Select(items, key, k) <==> x in items && key(x) == k
  {
    if items != [] {
      SelectMembers(items[..|items| - 1], key, k);
      assert items == items[..|items| - 1] + [items[|items| - 1]];
    }
  }

  /** A group keeps the items with its key, each once and in their order. */
  lemma {:induction false} SelectInOrder<T, K>(items: seq<T>, key: T -> K, k: K) returns (at: seq<nat>)
    ensures IsPart(at, |items|) && Select(items, key, k) == Pick(items, at)
    ensures forall i: nat :: i < |items| ==> (i in at <==> key(items[i]) == k)
  {
    if items == [] {
      at := [];
    } else {
      var before, last := items[..|items| - 1], items[|items| - 1];
      at := SelectInOrder(before, key, k);
      at := KeepSnoc(before, last, at, key(last) == k);
      assert items == before + [last];
    }
  }

  /** The item at `i` is the first with key `k`. */
  ghost predicate IsFirst<T, K>(items: seq<T>, key: T -> K, i: nat, k: K) {
    i < |items| && key(items[i]) == k && forall h :: 0 <= h < i ==> key(items[h]) != k
  }

  /** The keys are listed in the order of their first items. */
  lemma {:induction false} FirstSeenInOrder<T, K>(items: seq<T>, key: T -> K) returns (at: seq<nat>)
    ensures IsPart(at, |items|) && |at| == |FirstSeen(items, key)|
    ensures forall j: nat :: j < |at| ==> IsFirst(items, key, at[j], FirstSeen(items, key)[j])
  {
    if items == [] {
      at := [];
    } else {
      var before, last := items[..|items| - 1], items[|items| - 1];
      at := FirstSeenInOrder(before, key);
      forall j: nat | j < |at| ensures IsFirst(items, key, at[j], FirstSeen(before, key)[j]) {
        assert IsFirst(before, key, at[j], FirstSeen(before, key)[j]);
      }
      FirstSeenDistinct(before, key);
      if key(last) !in FirstSeen(before, key) {
        forall i | 0 <= i < |before| ensures key(before[i]) != key(last) {
          assert before[i] in before;
        }
        assert IsFirst(items, key, |before|, key(last));
        at := at + [|before|];
      }
    }
  }

  lemma {:induction false} SelectAppend<T, K>(a: seq<T>, b: seq<T>, key: T -> K, k: K)
    ensures Select(a + b, key, k) == Select(a, key, k) + Select(b, key, k)
  {
    if b == [] {
      assert a + b == a;
    } else {
      assert (a + b)[..|a + b| - 1] == a + b[..|b| - 1];
      SelectAppend(a, b[..|b| - 1], key, k);
    }
  }

  // ---------- Nothing is lost or counted twice ----------

  function Sum<T>(items: seq<T>, w: T -> real): real {
    if items == [] then 0.0 else Sum(items[..|items| - 1], w) + w(items[|items| - 1])
  }

  lemma SumAppend<T>(items: seq<T>, x: T, w: T -> real)
    ensures Sum(items + [x], w) == Sum(items, w) + w(x)
  {
    assert (items + [x])[..|items|] == items;
  }

  lemma {:induction false} SumSame<T>(items: seq<T>, v: T -> real, w: T -> real)
    requires forall x :: x in items ==> v(x) == w(x)
    ensures Sum(items, v) == Sum(items, w)
  {
    if items != [] {
      assert items == items[..|items| - 1] + [items[|items| - 1]];
      SumSame(items[..|items| - 1], v, w);
    }
  }

  /** The sum over the groups of the given keys. */
  ghost function GroupSum<T, K>(ks: seq<K>, items: seq<T>, key: T -> K, w: T -> real): real {
    if ks == [] then 0.0
    else GroupSum(ks[..|ks| - 1], items, key, w) + Sum(Select(items, key, ks[|ks| - 1]), w)
  }

  lemma {:induction false} GroupSumStep<T, K>(ks: seq<K>, items: seq<T>, x: T, key: T -> K, w: T -> real)
    requires Distinct(ks)
    ensures GroupSum(ks, items + [x], key, w) == GroupSum(ks, items, key, w) + if key(x) in ks then w(x) else 0.0
  {
    assert (items + [x])[..|items|] == items;
    if ks != [] {
      var k := ks[|ks| - 1];
      GroupSumStep(ks[..|ks| - 1], items, x, key, w);
      assert ks == ks[..|ks| - 1] + [k];
      if key(x) == k {
        SumAppend(Select(items, key, k), x, w);
      } else {
        assert Select(items + [x], key, k) == Select(items, key, k);
      }
    }
  }

  /** The weight of the items whose key is listed. */
  ghost function Listed<T, K>(ks: seq<K>, key: T -> K, w: T -> real): T -> real {
    x => if key(x) in ks then w(x) else 0.0
  }

  /** Whatever is added up over the groups is what is added up over the items whose key is listed. */
  lemma {:induction false} GroupsConserve<T, K>(ks: seq<K>, items: seq<T>, key: T -> K, w: T -> real)
    requires Distinct(ks)
    ensures GroupSum(ks, items, key, w) == Sum(items, Listed(ks, key, w))
    decreases |items|
  {
    if items == [] {
      EmptyGroups(ks, items, key, w);
    } else {
      var before, x := items[..|items| - 1], items[|items| - 1];
      assert items == before + [x];
      GroupsConserve(ks, before, key, w);
      GroupSumStep(ks, before, x, key, w);
    }
  }

  lemma {:induction false} EmptyGroups<T, K>(ks: seq<K>, items: seq<T>, key: T -> K, w: T -> real)
    requires items == []
    ensures GroupSum(ks, items, key, w) == 0.0
  {
    if ks != [] {
      EmptyGroups(ks[..|ks| - 1], items, key, w);
    }
  }
}

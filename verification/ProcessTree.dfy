/**
 Which vitest processes belong to somebody else (`foreignVitestPids`,
 `otherVitestRunning`, scripts/vitest-tmp-cleanup.ts).  Rows are the parsed lines of
 the process table; which commands count as a run is a parameter.
 */
module ProcessTree {
  import opened Lists
  import opened Wrappers

  datatype Row = Row(pid: nat, ppid: nat, cmd: string)

  type Parents = map<nat, nat>

  /** The parent map; of several rows for one pid the last counts. */
  function ParentsOf(rows: seq<Row>): Parents {
    if rows == [] then map[]
    else var last := rows[|rows| - 1]; ParentsOf(rows[..|rows| - 1])[last.pid := last.ppid]
  }

  /** A pid has the parent that the last of its rows gives. */
  lemma {:induction false} ParentsMean(rows: seq<Row>, p: nat)
    ensures p !in ParentsOf(rows) <==> forall i :: 0 <= i < |rows| ==> rows[i].pid != p
    ensures p in ParentsOf(rows) ==> exists i: nat :: IsLastRow(rows, i, p) && ParentsOf(rows)[p] == rows[i].ppid
  {
    if rows != [] {
      var n := |rows| - 1;
      ParentsMean(rows[..n], p);
      if rows[n].pid == p {
        assert IsLastRow(rows, n, p);
      } else if p in ParentsOf(rows) {
        var i: nat :| IsLastRow(rows[..n], i, p) && ParentsOf(rows[..n])[p] == rows[..n][i].ppid;
        assert IsLastRow(rows, i, p);
      }
    }
  }

  ghost predicate IsLastRow(rows: seq<Row>, i: nat, p: nat) {
    i < |rows| && rows[i].pid == p && forall j :: i < j < |rows| ==> rows[j].pid != p
  }

  /** `parent.get(p) ?? 0`. */
  function Up(parents: Parents, p: nat): nat {
    if p in parents then parents[p] else 0
  }

  const MAX_HOPS: nat := 64

  // ---------- Walks without a bound ----------

  function Ancestor(parents: Parents, p: nat, k: nat): nat
    decreases k
  {
    if k == 0 then p else Ancestor(parents, Up(parents, p), k - 1)
  }

  /** `target` is reached from `p` after `k` hops, through pids above 1 only. */
  ghost predicate ReachedAfter(parents: Parents, p: nat, target: nat, k: nat)
    decreases k
  {
    p > 1 && if k == 0 then p == target else ReachedAfter(parents, Up(parents, p), target, k - 1)
  }

  /** `target` is `p` or one of its ancestors, however far up. */
  ghost predicate IsAbove(parents: Parents, p: nat, target: nat) {
    exists k: nat :: ReachedAfter(parents, p, target, k)
  }

  /** Self, its ancestors and its descendants. */
  ghost predicate IsRelated(parents: Parents, pid: nat, self: nat) {
    IsAbove(parents, pid, self) || IsAbove(parents, self, pid)
  }

  // ---------- The bounded walk ----------

  /** The same with at most `hops` steps looked at. */
  function ReachesWithin(parents: Parents, p: nat, target: nat, hops: nat): bool
    decreases hops
  {
    p > 1 && hops > 0 && (p == target || ReachesWithin(parents, Up(parents, p), target, hops - 1))
  }

  method Reaches(parents: Parents, from: nat, target: nat) returns (r: bool)
    ensures r == ReachesWithin(parents, from, target, MAX_HOPS)
  {
    var p, hops := from, 0;
    while p > 1 && hops < 64
      invariant hops <= 64
      decreases 64 - hops
      invariant ReachesWithin(parents, p, target, 64 - hops) == ReachesWithin(parents, from, target, 64)
    {
      if p == target { return true; }
      p, hops := Up(parents, p), hops + 1;
    }
    return false;
  }

  lemma {:induction false} WithinHasCount(parents: Parents, p: nat, target: nat, hops: nat) returns (k: nat)
    requires ReachesWithin(parents, p, target, hops)
    ensures k < hops && ReachedAfter(parents, p, target, k)
    decreases hops
  {
    if p == target {
      k := 0;
    } else {
      k := WithinHasCount(parents, Up(parents, p), target, hops - 1);
      k := k + 1;
    }
  }

  lemma {:induction false} CountIsWithin(parents: Parents, p: nat, target: nat, hops: nat, k: nat)
    requires k < hops && ReachedAfter(parents, p, target, k)
    ensures ReachesWithin(parents, p, target, hops)
    decreases hops
  {
    if k > 0 {
      CountIsWithin(parents, Up(parents, p), target, hops - 1, k - 1);
    }
  }

  ghost predicate ReachedBelow(parents: Parents, p: nat, target: nat, hops: nat, k: nat) {
    k < hops && ReachedAfter(parents, p, target, k)
  }

  /** The bounded walk finds exactly what is fewer than `hops` steps up. */
  lemma WithinIsReached(parents: Parents, p: nat, target: nat, hops: nat)
    ensures ReachesWithin(parents, p, target, hops) <==> exists k: nat :: ReachedBelow(parents, p, target, hops, k)
  {
    if ReachesWithin(parents, p, target, hops) {
      var k := WithinHasCount(parents, p, target, hops);
      assert ReachedBelow(parents, p, target, hops, k);
    }
    if k: nat :| ReachedBelow(parents, p, target, hops, k) {
      CountIsWithin(parents, p, target, hops, k);
    }
  }

  // ---------- The program ----------

  function IsOurs(parents: Parents, pid: nat, self: nat): bool {
    ReachesWithin(parents, pid, self, MAX_HOPS) || ReachesWithin(parents, self, pid, MAX_HOPS)
  }

  /** The pids of the rows that are runs and not ours, in order. */
  function Foreign(rows: seq<Row>, parents: Parents, self: nat, isRunner: string -> bool): seq<nat> {
    if rows == [] then []
    else
      var last := rows[|rows| - 1];
      Foreign(rows[..|rows| - 1], parents, self, isRunner)
      + if isRunner(last.cmd) && !IsOurs(parents, last.pid, self) then [last.pid] else []
  }

  method ForeignVitestPids(rows: seq<Row>, self: nat, isRunner: string -> bool) returns (pids: seq<nat>)
    ensures pids == Foreign(rows, ParentsOf(rows), self, isRunner)
  {
    var parents := ParentsOf(rows);
    pids := [];
    for i := 0 to |rows|
      invariant pids == Foreign(rows[..i], parents, self, isRunner)
    {
      var r := rows[i];
      assert rows[..i + 1][..i] == rows[..i];
      if isRunner(r.cmd) {
        var down := Reaches(parents, r.pid, self);
        var up := Reaches(parents, self, r.pid);
        if !(down || up) {
          pids := pids + [r.pid];
        }
      }
    }
    assert rows[..|rows|] == rows;
  }

  /** Fails closed: an unreadable process table counts as a run. */
  method OtherVitestRunning(table: Option<seq<Row>>, self: nat, isRunner: string -> bool) returns (running: bool)
    ensures running <==>
      table.None? || Foreign(table.value, ParentsOf(table.value), self, isRunner) != []
  {
    if table.None? { return true; }
    var pids := ForeignVitestPids(table.value, self, isRunner);
    return |pids| > 0;
  }

  // ---------- What is reported ----------

  lemma {:induction false} ForeignMembers(rows: seq<Row>, parents: Parents, self: nat, isRunner: string -> bool, pid: nat)
    ensures pid in Foreign(rows, parents, self, isRunner) <==>
      !IsOurs(parents, pid, self) && exists r :: r in rows && r.pid == pid && isRunner(r.cmd)
  {
    if rows != [] {
      ForeignMembers(rows[..|rows| - 1], parents, self, isRunner, pid);
      assert rows == rows[..|rows| - 1] + [rows[|rows| - 1]];
    }
  }

  /** The reported pids stand in the order of the rows, one for each runner row that is not ours. */
  lemma {:induction false} ForeignInOrder(rows: seq<Row>, parents: Parents, self: nat, isRunner: string -> bool) returns (at: seq<nat>)
    ensures IsPart(at, |rows|) && |Foreign(rows, parents, self, isRunner)| == |at|
    ensures forall i :: 0 <= i < |at| ==> Foreign(rows, parents, self, isRunner)[i] == rows[at[i]].pid
    ensures forall i: nat :: i < |rows| ==> (i in at <==> isRunner(rows[i].cmd) && !IsOurs(parents, rows[i].pid, self))
  {
    hide IsOurs;
    if rows == [] {
      at := [];
    } else {
      var n := |rows| - 1;
      at := ForeignInOrder(rows[..n], parents, self, isRunner);
      if isRunner(rows[n].cmd) && !IsOurs(parents, rows[n].pid, self) {
        at := at + [n];
      }
    }
  }

  /** The own pid is never reported, except that a pid of 0 or 1 has no walk to stop it. */
  lemma SelfReportedOnlyAtRoot(rows: seq<Row>, self: nat, isRunner: string -> bool)
    ensures self in Foreign(rows, ParentsOf(rows), self, isRunner) <==>
      self <= 1 && exists r :: r in rows && r.pid == self && isRunner(r.cmd)
  {
    ForeignMembers(rows, ParentsOf(rows), self, isRunner, self);
  }

  /** A process with pid 1 that is a runner does report itself. */
  lemma RootReportsItself(isRunner: string -> bool)
    requires isRunner("vitest")
    ensures var rows := [Row(1, 0, "vitest")]; Foreign(rows, ParentsOf(rows), 1, isRunner) == [1]
  {
    var rows := [Row(1, 0, "vitest")];
    assert rows[..0] == [];
    assert Foreign(rows[..0], ParentsOf(rows), 1, isRunner) == [];
  }

  /** The bound can only add pids: whoever is unrelated is reported, even in a cyclic or corrupt table. */
  lemma ForeignNeverHidden(rows: seq<Row>, self: nat, isRunner: string -> bool, r: Row)
    requires r in rows && isRunner(r.cmd) && !IsRelated(ParentsOf(rows), r.pid, self)
    ensures r.pid in Foreign(rows, ParentsOf(rows), self, isRunner)
  {
    var parents := ParentsOf(rows);
    WithinIsReached(parents, r.pid, self, MAX_HOPS);
    WithinIsReached(parents, self, r.pid, MAX_HOPS);
    ForeignMembers(rows, parents, self, isRunner, r.pid);
  }

  // ---------- When the bound does not matter ----------

  /** Within 64 hops the walk from `p` ends at a root or comes back to a pid it has passed. */
  ghost predicate Settles(parents: Parents, p: nat) {
    || (exists k: nat :: k <= MAX_HOPS && Ancestor(parents, p, k) <= 1)
    || (exists i: nat, j: nat :: i < j <= MAX_HOPS && Ancestor(parents, p, i) == Ancestor(parents, p, j))
  }

  lemma {:induction false} ReachedIsAncestor(parents: Parents, p: nat, target: nat, k: nat)
    ensures ReachedAfter(parents, p, target, k) <==>
      Ancestor(parents, p, k) == target && forall i: nat :: i <= k ==> Ancestor(parents, p, i) > 1
    decreases k
  {
    assert Ancestor(parents, p, 0) == p;
    if k > 0 {
      var up := Up(parents, p);
      ReachedIsAncestor(parents, up, target, k - 1);
      forall i: nat | 0 < i ensures Ancestor(parents, p, i) == Ancestor(parents, up, i - 1) {
      }
      if ReachedAfter(parents, p, target, k) {
        forall i: nat | i <= k ensures Ancestor(parents, p, i) > 1 {
          assert i > 0 ==> Ancestor(parents, up, i - 1) > 1;
        }
      } else if p > 1 && Ancestor(parents, p, k) == target {
        var i: nat :| i <= k - 1 && Ancestor(parents, up, i) <= 1;
        assert Ancestor(parents, p, i + 1) <= 1;
      }
    }
  }

  lemma {:induction false} AncestorAdd(parents: Parents, p: nat, i: nat, j: nat)
    ensures Ancestor(parents, Ancestor(parents, p, i), j) == Ancestor(parents, p, i + j)
    decreases i
  {
    if i > 0 {
      AncestorAdd(parents, Up(parents, p), i - 1, j);
    }
  }

  /** On a walk that has come back, whatever is reached is reached before the second round. */
  lemma {:induction false} ReachedInFirstRound(parents: Parents, p: nat, target: nat, i: nat, j: nat, k: nat)
    requires i < j && Ancestor(parents, p, i) == Ancestor(parents, p, j) && ReachedAfter(parents, p, target, k)
    ensures exists m: nat :: ReachedBelow(parents, p, target, j, m)
    decreases k
  {
    if k >= j {
      var m: nat := k - (j - i);
      AncestorAdd(parents, p, i, k - j);
      AncestorAdd(parents, p, j, k - j);
      ReachedIsAncestor(parents, p, target, k);
      ReachedIsAncestor(parents, p, target, m);
      ReachedInFirstRound(parents, p, target, i, j, m);
    } else {
      assert ReachedBelow(parents, p, target, j, k);
    }
  }

  lemma BoundedIsExact(parents: Parents, p: nat, target: nat)
    requires Settles(parents, p)
    ensures ReachesWithin(parents, p, target, MAX_HOPS) <==> IsAbove(parents, p, target)
  {
    WithinIsReached(parents, p, target, MAX_HOPS);
    if ReachesWithin(parents, p, target, MAX_HOPS) {
      var k: nat :| ReachedBelow(parents, p, target, MAX_HOPS, k);
      assert ReachedAfter(parents, p, target, k);
    }
    if IsAbove(parents, p, target) {
      var k: nat :| ReachedAfter(parents, p, target, k);
      ReachedIsAncestor(parents, p, target, k);
      if i: nat, j: nat :| i < j <= MAX_HOPS && Ancestor(parents, p, i) == Ancestor(parents, p, j) {
        ReachedInFirstRound(parents, p, target, i, j, k);
        var m: nat :| ReachedBelow(parents, p, target, j, m);
        assert ReachedBelow(parents, p, target, MAX_HOPS, m);
      } else {
        var m: nat :| m <= MAX_HOPS && Ancestor(parents, p, m) <= 1;
        assert m <= k ==> Ancestor(parents, p, m) > 1;
        assert ReachedBelow(parents, p, target, MAX_HOPS, k);
      }
    }
  }

  ghost predicate BoundIsHarmless(parents: Parents, p: nat) {
    forall target: nat :: ReachesWithin(parents, p, target, MAX_HOPS) <==> IsAbove(parents, p, target)
  }

  /** The bound does not matter to a walk exactly when the walk settles: it misses what stands 64 hops up otherwise. */
  lemma BoundIsHarmlessIffSettled(parents: Parents, p: nat)
    ensures BoundIsHarmless(parents, p) <==> Settles(parents, p)
  {
    hide ReachesWithin;
    if Settles(parents, p) {
      forall target: nat ensures ReachesWithin(parents, p, target, MAX_HOPS) <==> IsAbove(parents, p, target) {
        BoundedIsExact(parents, p, target);
      }
    } else {
      var target := Ancestor(parents, p, MAX_HOPS);
      ReachedIsAncestor(parents, p, target, MAX_HOPS);
      WithinIsReached(parents, p, target, MAX_HOPS);
      assert IsAbove(parents, p, target);
      if ReachesWithin(parents, p, target, MAX_HOPS) {
        var k: nat :| ReachedBelow(parents, p, target, MAX_HOPS, k);
        ReachedIsAncestor(parents, p, target, k);
      }
    }
  }

  /** A chain of `n` runners: pid 2 is the child of the root, each further pid the child of the one before. */
  function ChainOf(n: nat): seq<Row> {
    if n == 0 then [] else ChainOf(n - 1) + [Row(n + 1, n, "vitest")]
  }

  lemma {:induction false} ChainParents(n: nat)
    ensures |ChainOf(n)| == n
    ensures forall p: nat :: p in ParentsOf(ChainOf(n)) <==> 2 <= p <= n + 1
    ensures forall p: nat :: 2 <= p <= n + 1 ==> ParentsOf(ChainOf(n))[p] == p - 1
  {
    if n > 0 {
      ChainParents(n - 1);
      assert ChainOf(n)[..n - 1] == ChainOf(n - 1);
    }
  }

  lemma {:induction false} ChainAncestor(n: nat, p: nat, k: nat)
    requires 2 <= p <= n + 1 && k < p
    ensures Ancestor(ParentsOf(ChainOf(n)), p, k) == p - k
    decreases k
  {
    ChainParents(n);
    if k > 0 && p > 2 {
      ChainAncestor(n, p - 1, k - 1);
    } else if k > 0 {
      assert Ancestor(ParentsOf(ChainOf(n)), 1, 0) == 1;
    }
  }

  /** In a chain of runners the last one reports the first, its own ancestor, exactly when there are more than 64. */
  lemma {:induction false} FarAncestorReported(n: nat, isRunner: string -> bool)
    requires n > 0 && isRunner("vitest")
    ensures IsRelated(ParentsOf(ChainOf(n)), 2, n + 1)
    ensures 2 in Foreign(ChainOf(n), ParentsOf(ChainOf(n)), n + 1, isRunner) <==> n > 64
  {
    hide ReachesWithin, Ancestor, ReachedAfter, ChainOf, ParentsOf, Foreign;
    var rows, parents, self := ChainOf(n), ParentsOf(ChainOf(n)), n + 1;
    forall k: nat | k < self ensures Ancestor(parents, self, k) == self - k {
      ChainAncestor(n, self, k);
    }
    ReachedIsAncestor(parents, self, 2, n - 1);
    assert IsAbove(parents, self, 2);
    WithinIsReached(parents, self, 2, MAX_HOPS);
    if ReachesWithin(parents, self, 2, MAX_HOPS) {
      var k: nat :| ReachedBelow(parents, self, 2, MAX_HOPS, k);
      ReachedIsAncestor(parents, self, 2, k);
      OnlyThen(n, k);
    } else {
      assert !ReachedBelow(parents, self, 2, MAX_HOPS, n - 1);
    }
    NothingAboveFirst(n, self);
    FirstInChain(n);
    ForeignMembers(rows, parents, self, isRunner, 2);
  }

  /** From the last pid of the chain the first is met after `n - 1` hops and no sooner. */
  lemma OnlyThen(n: nat, k: nat)
    requires n > 0 && Ancestor(ParentsOf(ChainOf(n)), n + 1, k) == 2
    ensures k >= n - 1
  {
    if k < n - 1 {
      ChainAncestor(n, n + 1, k);
    }
  }

  lemma NothingAboveFirst(n: nat, target: nat)
    requires n > 0 && target >= 2
    ensures ReachesWithin(ParentsOf(ChainOf(n)), 2, target, MAX_HOPS) <==> target == 2
  {
    ChainParents(n);
    assert !ReachesWithin(ParentsOf(ChainOf(n)), 1, target, MAX_HOPS - 1);
  }

  lemma {:induction false} FirstInChain(n: nat)
    requires n > 0
    ensures Row(2, 1, "vitest") in ChainOf(n)
  {
    if n > 1 {
      FirstInChain(n - 1);
    }
  }

  /** When all walks settle in time, exactly self, its ancestors and its descendants are left out. */
  lemma ExactWhenSettled(rows: seq<Row>, self: nat, isRunner: string -> bool, r: Row)
    requires r in rows && isRunner(r.cmd)
    requires Settles(ParentsOf(rows), r.pid) && Settles(ParentsOf(rows), self)
    ensures r.pid in Foreign(rows, ParentsOf(rows), self, isRunner) <==> !IsRelated(ParentsOf(rows), r.pid, self)
  {
    var parents := ParentsOf(rows);
    BoundedIsExact(parents, r.pid, self);
    BoundedIsExact(parents, self, r.pid);
    ForeignMembers(rows, parents, self, isRunner, r.pid);
  }
}

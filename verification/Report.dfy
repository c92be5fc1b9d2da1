/**
 Aggregating benchmark runs into one row per cell (`buildReport`,
 scripts/set-bench/report.ts), over exact reals.
 */
module Report {
  import opened Wrappers
  import opened Grouping
  import opened Lists
  import P = Percentile

  datatype CellRun = CellRun(
    axis: string, cellLabel: string, passed: bool, costColdUsd: real, costWarmUsd: real,
    tokensIn: nat, cacheReadTokens: nat, durationMs: real)

  datatype Cell = Cell(axis: string, name: string, pinned: bool)

  datatype Row = Row(
    axis: string, cellLabel: string, passRate: real, avgCostColdUsd: real, avgCostWarmUsd: real,
    avgCacheReadTokens: real, cacheHitRate: real, avgDurationMs: real,
    p50DurationMs: Option<real>, p95DurationMs: Option<real>, pinned: bool)

  // ---------- The composite key ----------

  const SEP: char := '\U{001F}'

  function Key(axis: string, name: string): string { axis + [SEP] + name }

  function RunKey(r: CellRun): string { Key(r.axis, r.cellLabel) }

  lemma KeySeparator(axis: string, name: string)
    requires '\U{001F}' !in axis
    ensures Key(axis, name)[|axis|] == SEP && forall i :: 0 <= i < |axis| ==> Key(axis, name)[i] != SEP
    ensures Key(axis, name)[..|axis|] == axis && Key(axis, name)[|axis| + 1..] == name
  {
  }

  /** The separator never occurs in an axis name, so the key tells (axis, label) pairs apart. */
  lemma KeyInjective(axis: string, name: string, axis': string, name': string)
    requires '\U{001F}' !in axis && '\U{001F}' !in axis'
    requires Key(axis, name) == Key(axis', name')
    ensures axis == axis' && name == name'
  {
    KeySeparator(axis, name);
    KeySeparator(axis', name');
    assert !(|axis| < |axis'|) && !(|axis'| < |axis|);
  }

  // ---------- One row ----------

  function Average(runs: seq<CellRun>, w: CellRun -> real): real {
    Sum(runs, w) / (if |runs| > 1 then |runs| else 1) as real
  }

  function Durations(runs: seq<CellRun>): seq<real> {
    seq(|runs|, i requires 0 <= i < |runs| => runs[i].durationMs)
  }

  function SortedDurations(runs: seq<CellRun>): seq<real> { SortBy(P.Itself, Durations(runs)) }

  function PassWeight(): CellRun -> real { (r: CellRun) => if r.passed then 1.0 else 0.0 }
  function ColdWeight(): CellRun -> real { (r: CellRun) => r.costColdUsd }
  function WarmWeight(): CellRun -> real { (r: CellRun) => r.costWarmUsd }
  function ReadWeight(): CellRun -> real { (r: CellRun) => r.cacheReadTokens as real }
  function InputWeight(): CellRun -> real { (r: CellRun) => (r.tokensIn + r.cacheReadTokens) as real }
  function DurationWeight(): CellRun -> real { (r: CellRun) => r.durationMs }

  function RowOf(cell: Cell, runs: seq<CellRun>): Row {
    var totalIn, totalRead := Sum(runs, InputWeight()), Sum(runs, ReadWeight());
    var durations := SortedDurations(runs);
    Row(cell.axis, cell.name,
        if |runs| == 0 then 0.0 else Sum(runs, PassWeight()) / |runs| as real,
        Average(runs, ColdWeight()), Average(runs, WarmWeight()), Average(runs, ReadWeight()),
        if totalIn == 0.0 then 0.0 else totalRead / totalIn,
        Average(runs, DurationWeight()),
        P.Percentile(durations, 50.0), P.Percentile(durations, 95.0), cell.pinned)
  }

  // ---------- The report ----------

  /** The cell that a key stands for: the last one listed, as in a map built from the list. */
  function CellFor(cells: seq<Cell>, key: string): Option<Cell> {
    if cells == [] then None
    else
      var last := cells[|cells| - 1];
      if Key(last.axis, last.name) == key then Some(last) else CellFor(cells[..|cells| - 1], key)
  }

  /** One row for each known key, in order of first occurrence. */
  function Rows(order: seq<string>, runs: seq<CellRun>, cells: seq<Cell>): seq<Row> {
    if order == [] then []
    else
      var k := order[|order| - 1];
      var cell := CellFor(cells, k);
      Rows(order[..|order| - 1], runs, cells)
      + if cell.Some? then [RowOf(cell.value, Select(runs, RunKey, k))] else []
  }

  method BuildReport(runs: seq<CellRun>, cells: seq<Cell>) returns (summary: seq<Row>)
    ensures summary == Rows(FirstSeen(runs, RunKey), runs, cells)
  {
    var cellsByKey: map<string, Cell> := map[];
    for i := 0 to |cells|
      invariant forall k :: (if k in cellsByKey then Some(cellsByKey[k]) else None) == CellFor(cells[..i], k)
    {
      assert cells[..i + 1][..i] == cells[..i];
      cellsByKey := cellsByKey[Key(cells[i].axis, cells[i].name) := cells[i]];
    }
    assert cells[..|cells|] == cells;
    var grouped := GroupBy(runs, RunKey);
    summary := [];
    for i := 0 to |grouped.order|
      invariant summary == Rows(grouped.order[..i], runs, cells)
    {
      var key := grouped.order[i];
      assert grouped.order[..i + 1][..i] == grouped.order[..i];
      if key in cellsByKey {
        summary := summary + [RowOf(cellsByKey[key], grouped.members[key])];
      }
    }
    assert grouped.order[..|grouped.order|] == grouped.order;
  }

  // ---------- What every row satisfies ----------

  lemma DurationsSorted(runs: seq<CellRun>)
    ensures P.Ascending(SortedDurations(runs)) && |SortedDurations(runs)| == |runs|
    ensures forall y :: y in SortedDurations(runs) <==> exists r :: r in runs && r.durationMs == y
  {
    var all := Durations(runs);
    SortSorts(P.Itself, all);
    SameMembers(SortedDurations(runs), all);
    forall r | r in runs ensures r.durationMs in all {
      var i :| 0 <= i < |runs| && runs[i] == r;
      assert all[i] == r.durationMs;
    }
  }

  lemma {:induction false} TotalMonotone(runs: seq<CellRun>, v: CellRun -> real, w: CellRun -> real)
    requires forall r :: v(r) <= w(r)
    ensures Sum(runs, v) <= Sum(runs, w)
  {
    if runs != [] {
      TotalMonotone(runs[..|runs| - 1], v, w);
    }
  }

  lemma {:induction false} TotalOnes(runs: seq<CellRun>)
    ensures Sum(runs, (r: CellRun) => 1.0) == |runs| as real
    ensures Sum(runs, (r: CellRun) => 0.0) == 0.0
  {
    if runs != [] {
      TotalOnes(runs[..|runs| - 1]);
    }
  }

  lemma Fraction(x: real, y: real)
    requires 0.0 <= x <= y && y > 0.0
    ensures 0.0 <= x / y <= 1.0
  {
  }

  /** Rates are fractions; the median run time does not exceed the 95th percentile, and both lie between actual run times. */
  ghost predicate IsSane(row: Row, runs: seq<CellRun>) {
    && 0.0 <= row.passRate <= 1.0 && 0.0 <= row.cacheHitRate <= 1.0
    && row.p50DurationMs.Some? && row.p95DurationMs.Some?
    && row.p50DurationMs.value <= row.p95DurationMs.value
    && (exists r :: r in runs && r.durationMs <= row.p50DurationMs.value)
    && (exists r :: r in runs && row.p95DurationMs.value <= r.durationMs)
  }

  lemma RowIsSane(cell: Cell, runs: seq<CellRun>)
    requires runs != []
    ensures IsSane(RowOf(cell, runs), runs)
  {
    RateIsFraction(runs);
    DurationsSorted(runs);
    var s := SortedDurations(runs);
    P.PercentileMonotone(s, 50.0, 95.0);
    P.PercentileBounds(s, 50.0);
    P.PercentileBounds(s, 95.0);
    assert s[0] in s && s[|s| - 1] in s;
  }

  lemma RateIsFraction(runs: seq<CellRun>)
    ensures var row := RowOf(Cell("", "", false), runs);
      0.0 <= row.passRate <= 1.0 && 0.0 <= row.cacheHitRate <= 1.0
  {
    var zero, one := (r: CellRun) => 0.0, (r: CellRun) => 1.0;
    TotalOnes(runs);
    TotalMonotone(runs, zero, PassWeight());
    TotalMonotone(runs, PassWeight(), one);
    TotalMonotone(runs, zero, ReadWeight());
    TotalMonotone(runs, ReadWeight(), InputWeight());
    if runs != [] {
      Fraction(Sum(runs, PassWeight()), |runs| as real);
    }
    if Sum(runs, InputWeight()) != 0.0 {
      Fraction(Sum(runs, ReadWeight()), Sum(runs, InputWeight()));
    }
  }

  // ---------- The report loses no run of a known cell ----------

  /** The total that a row's average stands for, given how many runs are behind it. */
  ghost function Restored(average: real, count: nat): real { average * count as real }

  lemma AverageRestored(runs: seq<CellRun>, w: CellRun -> real)
    ensures Restored(Average(runs, w), |runs|) == Sum(runs, w)
  {
    var total, n := Sum(runs, w), |runs| as real;
    if runs != [] {
      assert (total / n) * n == total;
    }
  }

  function Passed(r: CellRun): bool { r.passed }

  lemma {:induction false} PassesCounted(runs: seq<CellRun>)
    ensures Sum(runs, PassWeight()) == |Select(runs, Passed, true)| as real
  {
    if runs != [] {
      PassesCounted(runs[..|runs| - 1]);
    }
  }

  lemma RateRestored(x: real, n: nat)
    requires n > 0
    ensures Restored(x / n as real, n) == x
  {
  }

  /** Every average of a row stands for the sum of its own column, and the pass rate for the number of passing runs. */
  ghost predicate AveragesRight(row: Row, runs: seq<CellRun>) {
    var n := |runs|;
    && Restored(row.passRate, n) == |Select(runs, Passed, true)| as real
    && Restored(row.avgCostColdUsd, n) == Sum(runs, (r: CellRun) => r.costColdUsd)
    && Restored(row.avgCostWarmUsd, n) == Sum(runs, (r: CellRun) => r.costWarmUsd)
    && Restored(row.avgCacheReadTokens, n) == Sum(runs, (r: CellRun) => r.cacheReadTokens as real)
    && Restored(row.avgDurationMs, n) == Sum(runs, (r: CellRun) => r.durationMs)
  }

  /** The share of input tokens that came from the cache, 0 when there were none; and the percentiles of the run times. */
  ghost predicate RatesRight(row: Row, runs: seq<CellRun>) {
    var input, read := Sum(runs, (r: CellRun) => (r.tokensIn + r.cacheReadTokens) as real), Sum(runs, (r: CellRun) => r.cacheReadTokens as real);
    && (if input == 0.0 then row.cacheHitRate == 0.0 else Scaled(row.cacheHitRate, input) == read)
    && exists s :: AreRunTimes(s, runs) && row.p50DurationMs == P.Percentile(s, 50.0) && row.p95DurationMs == P.Percentile(s, 95.0)
  }

  ghost function Scaled(x: real, y: real): real { x * y }

  /** The run times in ascending order. */
  ghost predicate AreRunTimes(s: seq<real>, runs: seq<CellRun>) {
    P.Ascending(s) && multiset(s) == multiset(seq(|runs|, i requires 0 <= i < |runs| => runs[i].durationMs))
  }

  lemma RowRates(cell: Cell, runs: seq<CellRun>)
    ensures RatesRight(RowOf(cell, runs), runs)
  {
    hide Average;
    var input, read := Sum(runs, InputWeight()), Sum(runs, ReadWeight());
    SumSame(runs, InputWeight(), (r: CellRun) => (r.tokensIn + r.cacheReadTokens) as real);
    SumSame(runs, ReadWeight(), (r: CellRun) => r.cacheReadTokens as real);
    if input != 0.0 {
      ScaledBack(read, input);
    }
    SortSorts(P.Itself, Durations(runs));
    assert Durations(runs) == seq(|runs|, i requires 0 <= i < |runs| => runs[i].durationMs);
    assert AreRunTimes(SortedDurations(runs), runs);
  }

  lemma ScaledBack(x: real, y: real)
    requires y != 0.0
    ensures Scaled(x / y, y) == x
  {
  }

  lemma RowAverages(cell: Cell, runs: seq<CellRun>)
    requires runs != []
    ensures AveragesRight(RowOf(cell, runs), runs)
  {
    hide Restored, Average;
    PassesCounted(runs);
    RateRestored(Sum(runs, PassWeight()), |runs|);
    AverageRestored(runs, ColdWeight());
    AverageRestored(runs, WarmWeight());
    AverageRestored(runs, ReadWeight());
    AverageRestored(runs, DurationWeight());
    SumSame(runs, ColdWeight(), (r: CellRun) => r.costColdUsd);
    SumSame(runs, WarmWeight(), (r: CellRun) => r.costWarmUsd);
    SumSame(runs, ReadWeight(), (r: CellRun) => r.cacheReadTokens as real);
    SumSame(runs, DurationWeight(), (r: CellRun) => r.durationMs);
  }

  // ---------- The rows of a report ----------

  /** No axis contains the separator. */
  ghost predicate KeysClear(runs: seq<CellRun>, cells: seq<Cell>) {
    (forall r :: r in runs ==> '\U{001F}' !in r.axis) && forall c :: c in cells ==> '\U{001F}' !in c.axis
  }

  function AxisAndLabel(r: CellRun): (string, string) { (r.axis, r.cellLabel) }

  /** The runs of a cell, in order: those with its axis and its label. */
  function RunsOf(runs: seq<CellRun>, cell: Cell): seq<CellRun> {
    Select(runs, AxisAndLabel, (cell.axis, cell.name))
  }

  /** The runs under a cell's key are the runs of the cell. */
  lemma {:induction false} GroupIsRunsOf(runs: seq<CellRun>, cell: Cell)
    requires '\U{001F}' !in cell.axis && forall r :: r in runs ==> '\U{001F}' !in r.axis
    ensures Select(runs, RunKey, Key(cell.axis, cell.name)) == RunsOf(runs, cell)
  {
    hide Key;
    if runs != [] {
      var before, last := runs[..|runs| - 1], runs[|runs| - 1];
      assert runs == before + [last];
      GroupIsRunsOf(before, cell);
      if RunKey(last) == Key(cell.axis, cell.name) {
        KeyInjective(last.axis, last.cellLabel, cell.axis, cell.name);
      }
    }
  }

  /** The cell listed last for its key. */
  lemma {:induction false} CellForIsListed(cells: seq<Cell>, key: string)
    ensures match CellFor(cells, key)
      case None => forall c :: c in cells ==> Key(c.axis, c.name) != key
      case Some(cell) => cell in cells && Key(cell.axis, cell.name) == key && IsLastCell(cells, cell)
  {
    hide Key;
    if cells != [] {
      var before, last := cells[..|cells| - 1], cells[|cells| - 1];
      CellForIsListed(before, key);
      assert cells == before + [last];
      if Key(last.axis, last.name) == key {
        assert IsCellAt(cells, |before|, last);
      } else if CellFor(before, key).Some? {
        var cell := CellFor(before, key).value;
        var i: nat :| IsCellAt(before, i, cell);
        assert IsCellAt(cells, i, cell);
      }
    }
  }

  /** Of several cells with its axis and label, this is the one listed last. */
  ghost predicate IsLastCell(cells: seq<Cell>, cell: Cell) {
    exists i: nat :: IsCellAt(cells, i, cell)
  }

  ghost predicate IsCellAt(cells: seq<Cell>, i: nat, cell: Cell) {
    i < |cells| && cells[i] == cell && forall j :: i < j < |cells| ==> cells[j].axis != cell.axis || cells[j].name != cell.name
  }

  /** The row stands for the runs of a listed cell, of which there are some. */
  ghost predicate IsRowFor(row: Row, cell: Cell, runs: seq<CellRun>, cells: seq<Cell>) {
    && IsLastCell(cells, cell) && RunsOf(runs, cell) != []
    && row.axis == cell.axis && row.cellLabel == cell.name && row.pinned == cell.pinned
    && IsSane(row, RunsOf(runs, cell)) && AveragesRight(row, RunsOf(runs, cell)) && RatesRight(row, RunsOf(runs, cell))
  }

  lemma RowForKey(k: string, runs: seq<CellRun>, cells: seq<Cell>)
    requires KeysClear(runs, cells) && k in FirstSeen(runs, RunKey) && CellFor(cells, k).Some?
    ensures var cell := CellFor(cells, k).value;
      Select(runs, RunKey, k) == RunsOf(runs, cell) && IsRowFor(RowOf(cell, Select(runs, RunKey, k)), cell, runs, cells)
  {
    hide IsSane, AveragesRight, RatesRight, Key, Select;
    var cell := CellFor(cells, k).value;
    CellForIsListed(cells, k);
    GroupIsRunsOf(runs, cell);
    NotSeen(runs, RunKey, k);
    RowIsSane(cell, RunsOf(runs, cell));
    RowAverages(cell, RunsOf(runs, cell));
    RowRates(cell, RunsOf(runs, cell));
  }

  lemma {:induction false} RowsStandForCells(order: seq<string>, runs: seq<CellRun>, cells: seq<Cell>)
    requires KeysClear(runs, cells) && forall k :: k in order ==> k in FirstSeen(runs, RunKey)
    ensures forall row :: row in Rows(order, runs, cells) ==> exists cell :: IsRowFor(row, cell, runs, cells)
    ensures forall k :: k in order && CellFor(cells, k).Some? ==>
      exists row :: row in Rows(order, runs, cells) && IsRowFor(row, CellFor(cells, k).value, runs, cells)
  {
    hide IsRowFor, KeysClear, CellFor, RowOf, Select, FirstSeen;
    if order != [] {
      var before, k := order[..|order| - 1], order[|order| - 1];
      assert order == before + [k];
      RowsStandForCells(before, runs, cells);
      if CellFor(cells, k).Some? {
        RowForKey(k, runs, cells);
        assert RowOf(CellFor(cells, k).value, Select(runs, RunKey, k)) in Rows(order, runs, cells);
      }
    }
  }

  function RowKey(row: Row): string { Key(row.axis, row.cellLabel) }

  lemma {:induction false} RowsDistinct(order: seq<string>, runs: seq<CellRun>, cells: seq<Cell>)
    requires Distinct(order)
    ensures DistinctBy(RowKey, Rows(order, runs, cells))
    ensures forall row :: row in Rows(order, runs, cells) ==> RowKey(row) in order
  {
    hide Key, Select;
    if order != [] {
      var before, k := order[..|order| - 1], order[|order| - 1];
      assert order == before + [k] && k !in before;
      RowsDistinct(before, runs, cells);
      CellForIsListed(cells, k);
      forall i | 0 <= i < |Rows(before, runs, cells)| ensures RowKey(Rows(before, runs, cells)[i]) != k {
        assert Rows(before, runs, cells)[i] in Rows(before, runs, cells);
      }
    }
  }

  lemma RowKeyOf(cells: seq<Cell>, k: string, runs: seq<CellRun>)
    requires CellFor(cells, k).Some?
    ensures RowKey(RowOf(CellFor(cells, k).value, runs)) == k
  {
    hide Key;
    CellForIsListed(cells, k);
  }

  /** The rows keep the order of the keys. */
  lemma {:induction false} RowsKeepOrder(order: seq<string>, runs: seq<CellRun>, cells: seq<Cell>) returns (at: seq<nat>)
    ensures var rows := Rows(order, runs, cells);
      IsPart(at, |order|) && |at| == |rows| && forall i :: 0 <= i < |at| ==> RowKey(rows[i]) == order[at[i]]
  {
    hide Key, Select, CellFor, RowKey, RowOf;
    if order == [] {
      at := [];
    } else {
      var n := |order| - 1;
      at := RowsKeepOrder(order[..n], runs, cells);
      if CellFor(cells, order[n]).Some? {
        RowKeyOf(cells, order[n], Select(runs, RunKey, order[n]));
        at := at + [n];
      }
    }
  }

  /** Row by row, the first run of each cell comes later in the list of runs. */
  lemma RowsInOrder(runs: seq<CellRun>, cells: seq<Cell>) returns (at: seq<nat>)
    ensures var rows := Rows(FirstSeen(runs, RunKey), runs, cells);
      IsPart(at, |runs|) && |at| == |rows| && forall i :: 0 <= i < |at| ==> IsFirst(runs, RunKey, at[i], RowKey(rows[i]))
  {
    hide FirstSeen, Rows, IsFirst, RowKey;
    var first := FirstSeenInOrder(runs, RunKey);
    var kept := RowsKeepOrder(FirstSeen(runs, RunKey), runs, cells);
    at := Pick(first, kept);
    forall i: nat | i < |at| ensures IsFirst(runs, RunKey, at[i], RowKey(Rows(FirstSeen(runs, RunKey), runs, cells)[i])) {
      assert IsFirst(runs, RunKey, first[kept[i]], FirstSeen(runs, RunKey)[kept[i]]);
    }
  }

  /**
   No two rows are for one cell.  Every row of a report belongs to a listed cell and rests on exactly the runs with its axis and
   label, and every run of a listed cell is behind such a row.
   */
  lemma EveryRow(runs: seq<CellRun>, cells: seq<Cell>)
    requires KeysClear(runs, cells)
    ensures var summary := Rows(FirstSeen(runs, RunKey), runs, cells);
      && DistinctBy(RowKey, summary)
      && (forall row :: row in summary ==> exists cell :: IsRowFor(row, cell, runs, cells))
      && (forall r, c :: r in runs && c in cells && r.axis == c.axis && r.cellLabel == c.name ==>
            exists row, cell :: row in summary && IsRowFor(row, cell, runs, cells) && r in RunsOf(runs, cell))
  {
    hide IsRowFor, Rows, FirstSeen, Key, Select;
    var order := FirstSeen(runs, RunKey);
    FirstSeenDistinct(runs, RunKey);
    RowsStandForCells(order, runs, cells);
    RowsDistinct(order, runs, cells);
    forall r, c | r in runs && c in cells && r.axis == c.axis && r.cellLabel == c.name
      ensures exists row, cell :: row in Rows(order, runs, cells) && IsRowFor(row, cell, runs, cells) && r in RunsOf(runs, cell)
    {
      CellForIsListed(cells, RunKey(r));
      var cell := CellFor(cells, RunKey(r)).value;
      KeyInjective(cell.axis, cell.name, r.axis, r.cellLabel);
      SelectMembers(runs, AxisAndLabel, (cell.axis, cell.name));
      assert RunKey(r) in order;
    }
  }

  /** The warm cost of a run, if its cell is known. */
  ghost function KnownCost(cells: seq<Cell>): CellRun -> real {
    (r: CellRun) => if CellFor(cells, RunKey(r)).Some? then r.costWarmUsd else 0.0
  }

  /** What row `k` of the report contributes. */
  ghost function RowCost(k: string, runs: seq<CellRun>, cells: seq<Cell>): real {
    var group, cell := Select(runs, RunKey, k), CellFor(cells, k);
    if cell.Some? then Restored(RowOf(cell.value, group).avgCostWarmUsd, |group|) else 0.0
  }

  /** The rows' average warm costs, each times the number of runs behind it. */
  ghost function ReportedCost(order: seq<string>, runs: seq<CellRun>, cells: seq<Cell>): real {
    if order == [] then 0.0
    else ReportedCost(order[..|order| - 1], runs, cells) + RowCost(order[|order| - 1], runs, cells)
  }

  lemma GroupCost(k: string, runs: seq<CellRun>, cells: seq<Cell>)
    ensures RowCost(k, runs, cells) == Sum(Select(runs, RunKey, k), KnownCost(cells))
  {
    var group := Select(runs, RunKey, k);
    SelectMembers(runs, RunKey, k);
    if CellFor(cells, k).Some? {
      SumSame(group, KnownCost(cells), WarmWeight());
      AverageRestored(group, WarmWeight());
    } else {
      SumSame(group, KnownCost(cells), (r: CellRun) => 0.0);
      TotalOnes(group);
    }
  }

  lemma {:induction false} ReportedIsGrouped(order: seq<string>, runs: seq<CellRun>, cells: seq<Cell>)
    ensures ReportedCost(order, runs, cells) == GroupSum(order, runs, RunKey, KnownCost(cells))
  {
    if order != [] {
      ReportedIsGrouped(order[..|order| - 1], runs, cells);
      GroupCost(order[|order| - 1], runs, cells);
    }
  }

  /** Average cost times count, summed over the rows, is the cost of all runs whose cell is known. */
  lemma ReportConservesCost(runs: seq<CellRun>, cells: seq<Cell>)
    ensures ReportedCost(FirstSeen(runs, RunKey), runs, cells) == Sum(runs, KnownCost(cells))
  {
    var order := FirstSeen(runs, RunKey);
    FirstSeenDistinct(runs, RunKey);
    ReportedIsGrouped(order, runs, cells);
    GroupsConserve(order, runs, RunKey, KnownCost(cells));
    SumSame(runs, KnownCost(cells), Listed(order, RunKey, KnownCost(cells)));
  }
}

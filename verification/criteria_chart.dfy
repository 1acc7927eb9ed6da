/**
 * The data behind the criteria charts: the pass/fail status of the two
 * threshold bars, and the region breakdown, a group-by fold over the result
 * rows that counts rows and sums sales per region in order of first
 * appearance.
 */
module CriteriaChart {
  import opened Text
  import opened Evaluation

  // ---------------------------------------------------------------------
  // Threshold bars
  // ---------------------------------------------------------------------

  datatype BarStatus = Passed | Failed

  /** `rowCount > 100 ? 'passed' : 'failed'` */
  function RowCountStatus(rowCount: int): (st: BarStatus)
    ensures st == Passed <==> rowCount > RowThreshold
  {
    if rowCount > 100 then Passed else Failed
  }

  /** `maxSales > 5000 ? 'passed' : 'failed'` */
  function MaxSalesStatus(maxSales: int): (st: BarStatus)
    ensures st == Passed <==> maxSales > SalesThreshold
  {
    if maxSales > 5000 then Passed else Failed
  }

  /** Fed with the row count and the largest sale, both bars are green exactly when the verdict passes. */
  lemma ChartAgreesWithVerdict(results: seq<QueryResult>)
    requires |results| > 0
    ensures (RowCountStatus(|results|) == Passed && MaxSalesStatus(MaxSales(results)) == Passed)
        <==> EvaluateCriteria(results).passed
  {
  }

  // ---------------------------------------------------------------------
  // Region breakdown
  // ---------------------------------------------------------------------

  /** One bar of the region chart. */
  datatype RegionEntry = RegionEntry(region: string, count: nat, totalSales: int)

  const UnknownRegion: string := "Unknown"

  /** `result.region || 'Unknown'`: missing and empty regions are shown as Unknown. */
  function RegionLabel(region: Option<string>): (shown: string)
    ensures shown != []
    ensures region.Some? && region.value != [] ==> shown == region.value
    ensures region.None? || region.value == [] ==> shown == UnknownRegion
  {
    if region.Some? && region.value != [] then region.value else UnknownRegion
  }

  /**
   * `item.region === result.region`: the stored label is compared with the
   * row's raw region, so a missing region never matches anything.
   */
  predicate Matches(e: RegionEntry, region: Option<string>) {
    region.Some? && e.region == region.value
  }

  /** `acc.find(...)`: the first entry that matches. */
  function FindEntry(acc: seq<RegionEntry>, region: Option<string>): (r: Option<nat>)
    ensures r.Some? ==> r.value < |acc| && Matches(acc[r.value], region)
    ensures r.Some? ==> forall i :: 0 <= i < r.value ==> !Matches(acc[i], region)
    ensures r.None? <==> forall i :: 0 <= i < |acc| ==> !Matches(acc[i], region)
  {
    if acc == [] then None
    else if Matches(acc[0], region) then Some(0)
    else
      match FindEntry(acc[1..], region)
      case None => None
      case Some(i) => Some(i + 1)
  }

  /** The reducer: bump the first matching entry, or append a new one. */
  function AddRow(acc: seq<RegionEntry>, row: QueryResult): seq<RegionEntry> {
    match FindEntry(acc, row.region)
    case Some(i) => acc[i := acc[i].(count := acc[i].count + 1, totalSales := acc[i].totalSales + row.sales)]
    case None => acc + [RegionEntry(RegionLabel(row.region), 1, row.sales)]
  }

  /** `results.reduce(reducer, [])`, the rows taken from first to last. */
  function GroupByRegion(rows: seq<QueryResult>): (g: seq<RegionEntry>)
    ensures LabelsNonEmpty(g) && NamedRegionsUnique(g)
    decreases |rows|
  {
    if rows == [] then []
    else
      var init := GroupByRegion(rows[..|rows| - 1]);
      AddRowKeepsShape(init, rows[|rows| - 1]);
      AddRow(init, rows[|rows| - 1])
  }

  function SumCounts(es: seq<RegionEntry>): int {
    if es == [] then 0 else SumCounts(es[..|es| - 1]) + es[|es| - 1].count
  }

  function SumEntrySales(es: seq<RegionEntry>): int {
    if es == [] then 0 else SumEntrySales(es[..|es| - 1]) + es[|es| - 1].totalSales
  }

  function SumRowSales(rows: seq<QueryResult>): int {
    if rows == [] then 0 else SumRowSales(rows[..|rows| - 1]) + rows[|rows| - 1].sales
  }

  /** Changing one entry changes the sums by exactly the difference. */
  lemma {:induction false} SumsUpdate(es: seq<RegionEntry>, i: nat, e: RegionEntry)
    requires i < |es|
    ensures SumCounts(es[i := e]) == SumCounts(es) - es[i].count + e.count
    ensures SumEntrySales(es[i := e]) == SumEntrySales(es) - es[i].totalSales + e.totalSales
    decreases |es|
  {
    var u := es[i := e];
    if i < |es| - 1 {
      assert u[..|u| - 1] == es[..|es| - 1][i := e];
      SumsUpdate(es[..|es| - 1], i, e);
    } else {
      assert u[..|u| - 1] == es[..|es| - 1];
    }
  }

  lemma SumsAppend(es: seq<RegionEntry>, e: RegionEntry)
    ensures SumCounts(es + [e]) == SumCounts(es) + e.count
    ensures SumEntrySales(es + [e]) == SumEntrySales(es) + e.totalSales
  {
    assert (es + [e])[..|es|] == es;
  }

  /** One row adds one to the counts and its sales to the totals, and adds at most one entry. */
  lemma AddRowSums(acc: seq<RegionEntry>, row: QueryResult)
    ensures SumCounts(AddRow(acc, row)) == SumCounts(acc) + 1
    ensures SumEntrySales(AddRow(acc, row)) == SumEntrySales(acc) + row.sales
    ensures |acc| <= |AddRow(acc, row)| <= |acc| + 1
  {
    match FindEntry(acc, row.region)
    case Some(i) =>
      SumsUpdate(acc, i, acc[i].(count := acc[i].count + 1, totalSales := acc[i].totalSales + row.sales));
    case None =>
      SumsAppend(acc, RegionEntry(RegionLabel(row.region), 1, row.sales));
  }

  /** Every row is counted once and every sale lands in exactly one total. */
  lemma {:induction false} GroupConserves(rows: seq<QueryResult>)
    ensures SumCounts(GroupByRegion(rows)) == |rows|
    ensures SumEntrySales(GroupByRegion(rows)) == SumRowSales(rows)
    ensures |GroupByRegion(rows)| <= |rows|
    decreases |rows|
  {
    if rows != [] {
      var init := rows[..|rows| - 1];
      GroupConserves(init);
      AddRowSums(GroupByRegion(init), rows[|rows| - 1]);
    }
  }

  /** No entry is ever labelled with the empty string. */
  predicate LabelsNonEmpty(es: seq<RegionEntry>) {
    forall i :: 0 <= i < |es| ==> es[i].region != []
  }

  /**
   * Entries with the same label are all Unknown ones: a real region name
   * gets one entry.
   */
  predicate NamedRegionsUnique(es: seq<RegionEntry>) {
    forall i, j :: 0 <= i < j < |es| && es[i].region == es[j].region ==> es[i].region == UnknownRegion
  }

  lemma AddRowKeepsShape(acc: seq<RegionEntry>, row: QueryResult)
    requires LabelsNonEmpty(acc) && NamedRegionsUnique(acc)
    ensures LabelsNonEmpty(AddRow(acc, row)) && NamedRegionsUnique(AddRow(acc, row))
  {
    var r := AddRow(acc, row);
    if FindEntry(acc, row.region).None? {
      var name := RegionLabel(row.region);
      forall i | 0 <= i < |acc| && acc[i].region == name ensures name == UnknownRegion {
        assert !Matches(acc[i], row.region);
      }
      assert forall i, j :: 0 <= i < j < |r| && r[i].region == r[j].region ==>
        (j < |acc| || acc[i].region == name);
    }
  }

  /**
   * A row with a missing or empty region never finds an entry (the stored
   * labels are never missing or empty), so it always opens a new Unknown one.
   */
  lemma MissingRegionAppendsUnknown(rows: seq<QueryResult>, row: QueryResult)
    requires row.region.None? || row.region == Some([])
    ensures GroupByRegion(rows + [row]) == GroupByRegion(rows) + [RegionEntry(UnknownRegion, 1, row.sales)]
  {
    var g := GroupByRegion(rows);
    assert (rows + [row])[..|rows|] == rows;
    assert FindEntry(g, row.region).None?;
  }

  /** A row whose region is literally "Unknown" joins the first Unknown entry, whatever made it. */
  lemma LiteralUnknownMerges(rows: seq<QueryResult>, row: QueryResult, i: nat)
    requires row.region == Some(UnknownRegion)
    requires i < |GroupByRegion(rows)| && GroupByRegion(rows)[i].region == UnknownRegion
    requires forall k :: 0 <= k < i ==> GroupByRegion(rows)[k].region != UnknownRegion
    ensures |GroupByRegion(rows + [row])| == |GroupByRegion(rows)|
    ensures GroupByRegion(rows + [row])[i].count == GroupByRegion(rows)[i].count + 1
  {
    var g := GroupByRegion(rows);
    assert (rows + [row])[..|rows|] == rows;
    assert FindEntry(g, row.region) == Some(i);
  }

  /** The two ways of writing "no region" end up in two separate Unknown bars. */
  lemma TwoMissingRegionsTwoBars(a: QueryResult, b: QueryResult)
    requires a.region.None? && b.region.None?
    ensures GroupByRegion([a, b]) == [RegionEntry(UnknownRegion, 1, a.sales), RegionEntry(UnknownRegion, 1, b.sales)]
  {
    MissingRegionAppendsUnknown([], a);
    assert [a] == [] + [a];
    MissingRegionAppendsUnknown([a], b);
    assert [a, b] == [a] + [b];
  }

  /** Rows that carry the named region `name`, and their sales. */
  function CountRegion(rows: seq<QueryResult>, name: string): nat {
    if rows == [] then 0
    else CountRegion(rows[..|rows| - 1], name) + (if rows[|rows| - 1].region == Some(name) then 1 else 0)
  }

  function SalesInRegion(rows: seq<QueryResult>, name: string): int {
    if rows == [] then 0
    else SalesInRegion(rows[..|rows| - 1], name) + (if rows[|rows| - 1].region == Some(name) then rows[|rows| - 1].sales else 0)
  }

  lemma {:induction false} NoRowsNoSales(rows: seq<QueryResult>, name: string)
    requires CountRegion(rows, name) == 0
    ensures SalesInRegion(rows, name) == 0
    decreases |rows|
  {
    if rows != [] {
      NoRowsNoSales(rows[..|rows| - 1], name);
    }
  }

  /**
   * The entry of a named region (neither empty nor "Unknown"): present
   * exactly when some row carries the name, and then the only one, holding
   * that region's row count and sales total.
   */
  predicate TalliesRegion(es: seq<RegionEntry>, rows: seq<QueryResult>, name: string) {
    if CountRegion(rows, name) == 0 then forall i :: 0 <= i < |es| ==> es[i].region != name
    else exists i :: 0 <= i < |es| && es[i] == RegionEntry(name, CountRegion(rows, name), SalesInRegion(rows, name))
  }

  lemma {:induction false} GroupTallies(rows: seq<QueryResult>, name: string)
    requires name != [] && name != UnknownRegion
    ensures TalliesRegion(GroupByRegion(rows), rows, name)
    decreases |rows|
  {
    if rows != [] {
      var init := rows[..|rows| - 1];
      var row := rows[|rows| - 1];
      var g := GroupByRegion(init);
      GroupTallies(init, name);
      AddRowTallies(g, init, row, name);
      assert init + [row] == rows;
    }
  }

  lemma AddRowTallies(g: seq<RegionEntry>, init: seq<QueryResult>, row: QueryResult, name: string)
    requires name != [] && name != UnknownRegion
    requires NamedRegionsUnique(g) && TalliesRegion(g, init, name)
    ensures TalliesRegion(AddRow(g, row), init + [row], name)
  {
    var rows := init + [row];
    assert rows[..|rows| - 1] == init;
    var g' := AddRow(g, row);
    if row.region == Some(name) {
      if CountRegion(init, name) == 0 {
        NoRowsNoSales(init, name);
        assert FindEntry(g, row.region).None?;
        assert g'[|g|] == RegionEntry(name, CountRegion(rows, name), SalesInRegion(rows, name));
      } else {
        var i :| 0 <= i < |g| && g[i] == RegionEntry(name, CountRegion(init, name), SalesInRegion(init, name));
        var f := FindEntry(g, row.region).value;
        assert f == i;
        assert g'[i] == RegionEntry(name, CountRegion(rows, name), SalesInRegion(rows, name));
      }
    } else {
      match FindEntry(g, row.region)
      case None =>
        assert RegionLabel(row.region) != name;
        if CountRegion(init, name) != 0 {
          var i :| 0 <= i < |g| && g[i] == RegionEntry(name, CountRegion(init, name), SalesInRegion(init, name));
          assert g'[i] == g[i];
        }
      case Some(f) =>
        assert g[f].region != name;
        if CountRegion(init, name) != 0 {
          var i :| 0 <= i < |g| && g[i] == RegionEntry(name, CountRegion(init, name), SalesInRegion(init, name));
          assert g'[i] == g[i];
        }
    }
  }

  /** Entries appear in order of first occurrence: later rows only bump entries or append new ones. */
  lemma {:induction false} GroupPrefixStable(rows: seq<QueryResult>, k: nat)
    requires k <= |rows|
    ensures |GroupByRegion(rows[..k])| <= |GroupByRegion(rows)|
    ensures forall i :: 0 <= i < |GroupByRegion(rows[..k])| ==>
      GroupByRegion(rows[..k])[i].region == GroupByRegion(rows)[i].region
    decreases |rows|
  {
    if k < |rows| {
      var init := rows[..|rows| - 1];
      assert init[..k] == rows[..k];
      GroupPrefixStable(init, k);
      var g := GroupByRegion(init);
      assert |g| <= |AddRow(g, rows[|rows| - 1])|;
      assert forall i :: 0 <= i < |g| ==> AddRow(g, rows[|rows| - 1])[i].region == g[i].region;
    } else {
      assert rows[..k] == rows;
    }
  }
}

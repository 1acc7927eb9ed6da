/**
 * The batch screen: the pasted text is cut at every `---` into ticket
 * sections, each section is parsed with the single-ticket patterns (with a
 * numbered fallback id), the tickets are processed one after another with
 * simulated outcomes, and the completed ones are exported.
 */
module Batch {
  import opened Text
  import opened TicketParse
  import opened Evaluation

  datatype Status = Pending | Processing | Completed | Failed

  datatype BatchTicket = BatchTicket(
    id: string,
    content: string,
    sql: string,
    criteria: string,
    status: Status,
    results: Option<seq<QueryResult>>,
    error: Option<string>)

  const Separator: string := "---"
  const FallbackPrefix: string := "BATCH-"
  const ExecutionError: string := "Query execution failed"

  // ---------------------------------------------------------------------
  // Parsing
  // ---------------------------------------------------------------------

  /** `.filter(section => section.trim())`: the sections with something besides whitespace. */
  function KeepNonBlank(parts: seq<string>): (kept: seq<string>)
    ensures |kept| <= |parts|
    ensures forall k :: 0 <= k < |kept| ==> !AllWhitespace(kept[k]) && kept[k] in parts
    ensures forall k :: 0 <= k < |parts| && !AllWhitespace(parts[k]) ==> parts[k] in kept
  {
    if parts == [] then []
    else
      var rest := KeepNonBlank(parts[1..]);
      assert forall k :: 1 <= k < |parts| ==> parts[k] == parts[1..][k - 1];
      if !AllWhitespace(parts[0]) then [parts[0]] + rest else rest
  }

  /** A section is kept exactly when trimming leaves something, which is what the filter tests. */
  lemma NonBlankIffTrimmed(s: string)
    ensures !AllWhitespace(s) <==> Trim(s) != []
  {
    var a := LeadingSpace(s);
    if Trim(s) == [] {
      assert AllWhitespace(s[a..]);
      assert s == s[..a] + s[a..];
    }
  }

  /** Filtering a concatenation filters each half. */
  lemma {:induction false} KeepNonBlankAppend(a: seq<string>, b: seq<string>)
    ensures KeepNonBlank(a + b) == KeepNonBlank(a) + KeepNonBlank(b)
    decreases |a|
  {
    if a != [] {
      assert (a + b)[1..] == a[1..] + b;
      KeepNonBlankAppend(a[1..], b);
    } else {
      assert a + b == b;
    }
  }

  /** The ticket sections of the pasted text. */
  function Sections(blob: string): (sections: seq<string>)
    ensures forall k :: 0 <= k < |sections| ==> !AllWhitespace(sections[k]) && !Contains(sections[k], Separator)
  {
    KeepNonBlank(Split(blob, Separator))
  }

  /** `BATCH-${index + 1}` */
  function FallbackId(index: nat): (id: string)
    ensures |id| > |FallbackPrefix| && id[..|FallbackPrefix|] == FallbackPrefix
  {
    FallbackPrefix + NatToString(index + 1)
  }

  /** Different positions get different fallback ids. */
  lemma FallbackIdsDistinct(i: nat, j: nat)
    requires i != j
    ensures FallbackId(i) != FallbackId(j)
  {
    NatToStringInjective(i + 1, j + 1);
    if FallbackId(i) == FallbackId(j) {
      PrefixCancel(FallbackPrefix, NatToString(i + 1), NatToString(j + 1));
    }
  }

  /** One section as a pending ticket; `index` is its position among the kept sections. */
  function ParseSection(section: string, index: nat): (t: BatchTicket)
    ensures t.id != []
    ensures ExtractId(section).None? ==> t.id == FallbackId(index)
    ensures ExtractId(section).Some? ==> t.id == ExtractId(section).value
    ensures t.content == Trim(section) && IsTrimmed(t.content)
    ensures t.sql == ExtractSql(section).GetOr("")
    ensures t.criteria == ExtractCriteria(section).GetOr("")
    ensures t.status == Pending && t.results.None? && t.error.None?
  {
    BatchTicket(
      ExtractId(section).GetOr(FallbackId(index)),
      Trim(section),
      ExtractSql(section).GetOr(""),
      ExtractCriteria(section).GetOr(""),
      Pending, None, None)
  }

  /** `parseBatchTickets`: one pending ticket per non-blank section, in order. */
  function ParseBatch(blob: string): (tickets: seq<BatchTicket>)
    ensures |tickets| == |Sections(blob)|
    ensures forall k :: 0 <= k < |tickets| ==> tickets[k] == ParseSection(Sections(blob)[k], k)
    ensures forall k :: 0 <= k < |tickets| ==>
      && tickets[k].content != []
      && !Contains(tickets[k].content, Separator)
      && tickets[k].status == Pending
  {
    var sections := Sections(blob);
    var tickets := seq(|sections|, k requires 0 <= k < |sections| => ParseSection(sections[k], k));
    forall k | 0 <= k < |sections| ensures tickets[k].content != [] && !Contains(tickets[k].content, Separator) {
      SectionContent(sections[k], k);
    }
    tickets
  }

  lemma SectionContent(section: string, index: nat)
    requires !AllWhitespace(section) && !Contains(section, Separator)
    ensures ParseSection(section, index).content != []
    ensures !Contains(ParseSection(section, index).content, Separator)
  {
    NonBlankIffTrimmed(section);
    TrimKeepsAbsence(section, Separator);
  }

  /** Trimming cannot create an occurrence. */
  lemma TrimKeepsAbsence(s: string, pat: string)
    requires !Contains(s, pat)
    ensures !Contains(Trim(s), pat)
  {
    var t := Trim(s);
    var a := LeadingSpace(s);
    if Contains(t, pat) {
      assert s[a..a + |t|] == t;
      SliceContains(s, a, a + |t|, pat);
    }
  }

  /** A section the single-ticket screen accepts yields the same id, query and criteria in a batch. */
  lemma BatchAgreesWithSingle(section: string, index: nat)
    ensures ParseTicket(section).Some? ==>
      var t := ParseSection(section, index);
      var p := ParseTicket(section).value;
      t.id == p.id && t.sql == p.sql && t.criteria == p.criteria
  {
  }

  // ---------------------------------------------------------------------
  // Processing
  // ---------------------------------------------------------------------

  /**
   * What the random number generator decides for one ticket: the sales of
   * the mock rows (their count is the row count) and whether the run succeeds.
   */
  datatype Draw = Draw(sales: seq<int>, success: bool)

  /** The ranges `Math.random` allows: 50 to 199 rows, sales from 1000 to 8999. */
  predicate ValidDraw(d: Draw) {
    && 50 <= |d.sales| <= 199
    && forall k :: 0 <= k < |d.sales| ==> 1000 <= d.sales[k] <= 8999
  }

  /** The mock result rows: `PROD-1000`, `PROD-1001`, …, alternating West and East. */
  function MockRows(sales: seq<int>): (rows: seq<QueryResult>)
    ensures |rows| == |sales|
    ensures forall k :: 0 <= k < |rows| ==> rows[k].sales == sales[k] && rows[k].date.None?
  {
    seq(|sales|, k requires 0 <= k < |sales| =>
      QueryResult("PROD-" + NatToString(1000 + k), sales[k], Some(if k % 2 == 0 then "West" else "East"), None))
  }

  /** Mock product ids are all different, and regions alternate starting with West. */
  lemma MockRowsShape(sales: seq<int>)
    ensures var rows := MockRows(sales);
      && (forall i, j :: 0 <= i < j < |rows| ==> rows[i].productId != rows[j].productId)
      && (forall k :: 0 <= k < |rows| ==> rows[k].region == Some(if k % 2 == 0 then "West" else "East"))
  {
    var rows := MockRows(sales);
    forall i, j | 0 <= i < j < |rows| ensures rows[i].productId != rows[j].productId {
      MockRowId(sales, i);
      MockRowId(sales, j);
      MockIdsDistinct(i, j);
    }
  }

  lemma MockRowId(sales: seq<int>, k: nat)
    requires k < |sales|
    ensures MockRows(sales)[k].productId == "PROD-" + NatToString(1000 + k)
  {
  }

  lemma MockIdsDistinct(i: nat, j: nat)
    requires i != j
    ensures "PROD-" + NatToString(1000 + i) != "PROD-" + NatToString(1000 + j)
  {
    NatToStringInjective(1000 + i, 1000 + j);
    if "PROD-" + NatToString(1000 + i) == "PROD-" + NatToString(1000 + j) {
      PrefixCancel("PROD-", NatToString(1000 + i), NatToString(1000 + j));
    }
  }

  /** A valid draw yields between 50 and 199 rows, every sale between 1000 and 8999. */
  lemma MockRowsInRange(d: Draw)
    requires ValidDraw(d)
    ensures 50 <= |MockRows(d.sales)| <= 199
    ensures forall k :: 0 <= k < |MockRows(d.sales)| ==> 1000 <= MockRows(d.sales)[k].sales <= 8999
  {
  }

  /** The ticket after its run: completed with the rows, or failed with the error text. */
  function Settled(t: BatchTicket, d: Draw): (u: BatchTicket)
    ensures u.id == t.id && u.content == t.content && u.sql == t.sql && u.criteria == t.criteria
    ensures u.status == Completed <==> d.success
    ensures u.status == Completed || u.status == Failed
    ensures u.results.Some? <==> d.success
    ensures u.error.Some? <==> !d.success
    ensures d.success ==> u.results.value == MockRows(d.sales) && u.error.None?
    ensures !d.success ==> u.error.value == ExecutionError && u.results.None?
  {
    if d.success then t.(status := Completed, results := Some(MockRows(d.sales)), error := None)
    else t.(status := Failed, results := None, error := Some(ExecutionError))
  }

  /** The first state update of an iteration: every ticket with the id is shown as processing. */
  function MarkProcessing(ts: seq<BatchTicket>, id: string): (us: seq<BatchTicket>)
    ensures |us| == |ts|
  {
    seq(|ts|, j requires 0 <= j < |ts| => if ts[j].id == id then ts[j].(status := Processing) else ts[j])
  }

  /** The second update: every ticket with the id gets the outcome. */
  function SettleAll(ts: seq<BatchTicket>, id: string, d: Draw): (us: seq<BatchTicket>)
    ensures |us| == |ts|
  {
    seq(|ts|, j requires 0 <= j < |ts| => if ts[j].id == id then Settled(ts[j], d) else ts[j])
  }

  /**
   * One iteration of the loop, for the ticket with the given id: the tickets
   * with the id are shown as processing, then settled; every other ticket is
   * left as it was.
   */
  function ProcessOne(ts: seq<BatchTicket>, id: string, d: Draw): (us: seq<BatchTicket>)
    ensures forall j :: 0 <= j < |ts| && ts[j].id == id ==> MarkProcessing(ts, id)[j].status == Processing
    ensures |us| == |ts|
    ensures forall j :: 0 <= j < |ts| ==> us[j] == if ts[j].id == id then Settled(ts[j], d) else ts[j]
  {
    var m := MarkProcessing(ts, id);
    assert forall j :: 0 <= j < |ts| && ts[j].id == id ==> Settled(m[j], d) == Settled(ts[j], d);
    SettleAll(m, id, d)
  }

  /** The last position before `i` whose ticket has the id. */
  function LastWithId(ts: seq<BatchTicket>, id: string, i: nat): (r: Option<nat>)
    requires i <= |ts|
    ensures r.Some? ==> r.value < i && ts[r.value].id == id && forall m :: r.value < m < i ==> ts[m].id != id
    ensures r.None? <==> forall m :: 0 <= m < i ==> ts[m].id != id
  {
    if i == 0 then None
    else if ts[i - 1].id == id then Some(i - 1)
    else LastWithId(ts, id, i - 1)
  }

  /** Ticket `j` once the first `i` iterations have run. */
  function AfterIterations(ts: seq<BatchTicket>, draws: seq<Draw>, i: nat, j: nat): BatchTicket
    requires i <= |ts| == |draws| && j < |ts|
  {
    match LastWithId(ts, ts[j].id, i)
    case None => ts[j]
    case Some(k) => Settled(ts[j], draws[k])
  }

  lemma IterationStep(ts: seq<BatchTicket>, draws: seq<Draw>, i: nat, state: seq<BatchTicket>)
    requires i < |ts| == |draws| == |state|
    requires forall j :: 0 <= j < |ts| ==> state[j] == AfterIterations(ts, draws, i, j)
    ensures forall j :: 0 <= j < |ts| ==>
      ProcessOne(state, ts[i].id, draws[i])[j] == AfterIterations(ts, draws, i + 1, j)
  {
  }

  /** The progress bar after `done` of `n` tickets, as a percentage. */
  function Percent(done: nat, n: nat): (p: real)
    requires n > 0
    ensures p * (n as real) == (done as real) * 100.0
    ensures done <= n ==> 0.0 <= p <= 100.0
  {
    (done as real / n as real) * 100.0
  }

  lemma PercentIncreases(a: nat, b: nat, n: nat)
    requires a < b <= n && n > 0
    ensures 0.0 <= Percent(a, n) < Percent(b, n) <= 100.0
  {
    var x := a as real / n as real;
    var y := b as real / n as real;
    assert x * (n as real) == a as real;
    assert y * (n as real) == b as real;
    assert x < y;
    assert y <= 1.0;
  }

  lemma PercentDone(n: nat)
    requires n > 0
    ensures Percent(0, n) == 0.0 && Percent(n, n) == 100.0
  {
    assert n as real / n as real == 1.0;
  }

  /**
   * `processBatchTickets`, with the random draws passed in. Returns the
   * tickets once the loop has finished and every value the progress bar
   * was set to.
   */
  method ProcessBatch(tickets: seq<BatchTicket>, draws: seq<Draw>) returns (final: seq<BatchTicket>, progress: seq<real>)
    requires |draws| == |tickets|
    ensures |tickets| == 0 ==> final == tickets && progress == []
    ensures |final| == |tickets|
    ensures forall j :: 0 <= j < |tickets| ==> SettledByLastRun(tickets, draws, final, j)
    ensures forall j :: 0 <= j < |final| ==> final[j].status == Completed || final[j].status == Failed
    ensures |tickets| > 0 ==> |progress| == |tickets| + 1 && progress[0] == 0.0 && progress[|tickets|] == 100.0
    ensures |tickets| > 0 ==> forall k :: 0 <= k < |progress| ==> progress[k] == (k as real / |tickets| as real) * 100.0
    ensures forall k :: 0 <= k < |progress| - 1 ==> progress[k] < progress[k + 1]
  {
    var n := |tickets|;
    if n == 0 {
      return tickets, [];
    }
    final := tickets;
    progress := [0.0];
    var i := 0;
    while i < n
      invariant 0 <= i <= n
      invariant |final| == n
      invariant forall j :: 0 <= j < n ==> final[j] == AfterIterations(tickets, draws, i, j)
      invariant |progress| == i + 1
      invariant forall k :: 0 <= k < |progress| ==> progress[k] == Percent(k, n)
      invariant forall k :: 0 <= k < |progress| - 1 ==> progress[k] < progress[k + 1]
    {
      IterationStep(tickets, draws, i, final);
      final := ProcessOne(final, tickets[i].id, draws[i]);
      PercentIncreases(i, i + 1, n);
      progress := progress + [Percent(i + 1, n)];
      i := i + 1;
    }
    FinalState(tickets, draws, final);
    PercentDone(n);
  }

  /**
   * Ticket `j` of `final` is ticket `j` of the input settled with the draw of
   * the last position that has its id (itself or a later duplicate).
   */
  predicate SettledByLastRun(tickets: seq<BatchTicket>, draws: seq<Draw>, final: seq<BatchTicket>, j: int)
    requires |tickets| == |draws| == |final| && 0 <= j < |tickets|
  {
    exists k :: (j <= k < |tickets| && tickets[k].id == tickets[j].id
      && (forall m :: k < m < |tickets| ==> tickets[m].id != tickets[j].id)
      && final[j] == Settled(tickets[j], draws[k]))
  }

  /** Once every iteration has run, each ticket carries the outcome of the last position with its id. */
  lemma FinalState(tickets: seq<BatchTicket>, draws: seq<Draw>, final: seq<BatchTicket>)
    requires |tickets| == |draws| == |final|
    requires forall j :: 0 <= j < |tickets| ==> final[j] == AfterIterations(tickets, draws, |tickets|, j)
    ensures forall j :: 0 <= j < |tickets| ==> SettledByLastRun(tickets, draws, final, j)
    ensures forall j :: 0 <= j < |final| ==> final[j].status == Completed || final[j].status == Failed
  {
    forall j | 0 <= j < |tickets| {
      FinalTicket(tickets, draws, final, j);
    }
  }

  lemma FinalTicket(tickets: seq<BatchTicket>, draws: seq<Draw>, final: seq<BatchTicket>, j: nat)
    requires |tickets| == |draws| == |final| && j < |tickets|
    requires final[j] == AfterIterations(tickets, draws, |tickets|, j)
    ensures SettledByLastRun(tickets, draws, final, j)
    ensures final[j].status == Completed || final[j].status == Failed
  {
    var k := LastWithId(tickets, tickets[j].id, |tickets|).value;
    assert j <= k;
    assert final[j] == Settled(tickets[j], draws[k]);
  }

  // ---------------------------------------------------------------------
  // Counts and export
  // ---------------------------------------------------------------------

  /** `tickets.filter(t => t.status === st).length` */
  function CountStatus(ts: seq<BatchTicket>, st: Status): (c: nat)
    ensures c <= |ts|
    ensures c == 0 <==> forall j :: 0 <= j < |ts| ==> ts[j].status != st
  {
    if ts == [] then 0
    else
      assert forall j :: 1 <= j < |ts| ==> ts[j] == ts[1..][j - 1];
      (if ts[0].status == st then 1 else 0) + CountStatus(ts[1..], st)
  }

  /** Counting distributes over concatenation; one ticket counts once for its own status. */
  lemma {:induction false} CountStatusAppend(a: seq<BatchTicket>, b: seq<BatchTicket>, st: Status)
    ensures CountStatus(a + b, st) == CountStatus(a, st) + CountStatus(b, st)
    ensures forall t: BatchTicket :: CountStatus([t], st) == if t.status == st then 1 else 0
  {
    if a == [] {
      assert a + b == b;
    } else {
      assert (a + b)[1..] == a[1..] + b;
      CountStatusAppend(a[1..], b, st);
    }
  }

  /** Every ticket has exactly one of the four statuses. */
  lemma {:induction false} StatusCountsAddUp(ts: seq<BatchTicket>)
    ensures CountStatus(ts, Pending) + CountStatus(ts, Processing)
          + CountStatus(ts, Completed) + CountStatus(ts, Failed) == |ts|
  {
    if ts != [] {
      StatusCountsAddUp(ts[1..]);
    }
  }

  /** The two counters shown under the batch never exceed the number of tickets. */
  lemma CountsBounded(ts: seq<BatchTicket>)
    ensures CountStatus(ts, Completed) + CountStatus(ts, Failed) <= |ts|
  {
    StatusCountsAddUp(ts);
  }

  /** After a batch run the completed and failed counters account for every ticket. */
  lemma CountsAfterBatch(ts: seq<BatchTicket>)
    requires forall j :: 0 <= j < |ts| ==> ts[j].status == Completed || ts[j].status == Failed
    ensures CountStatus(ts, Completed) + CountStatus(ts, Failed) == |ts|
  {
    StatusCountsAddUp(ts);
  }

  /** One entry of the exported JSON array. */
  datatype ExportRow = ExportRow(ticketId: string, sql: string, criteria: string, rowCount: nat, status: Status)

  /** `results?.length || 0` */
  function RowCount(t: BatchTicket): (c: nat)
    ensures t.results.None? ==> c == 0
    ensures t.results.Some? ==> c == |t.results.value|
  {
    match t.results
    case Some(rows) => |rows|
    case None => 0
  }

  function ExportRowOf(t: BatchTicket): ExportRow {
    ExportRow(t.id, t.sql, t.criteria, RowCount(t), t.status)
  }

  /** `exportResults` without the download: the completed tickets, in order. */
  function Export(ts: seq<BatchTicket>): (rows: seq<ExportRow>)
    ensures |rows| == CountStatus(ts, Completed)
    ensures forall k :: 0 <= k < |rows| ==> rows[k].status == Completed
  {
    if ts == [] then []
    else
      var rest := Export(ts[1..]);
      if ts[0].status == Completed then [ExportRowOf(ts[0])] + rest else rest
  }

  /** Exactly the completed tickets are exported. */
  lemma {:induction false} ExportMembers(ts: seq<BatchTicket>)
    ensures forall e :: e in Export(ts) ==>
      exists j :: 0 <= j < |ts| && ts[j].status == Completed && e == ExportRowOf(ts[j])
    ensures forall j :: 0 <= j < |ts| && ts[j].status == Completed ==> ExportRowOf(ts[j]) in Export(ts)
  {
    if ts != [] {
      var rest := Export(ts[1..]);
      ExportMembers(ts[1..]);
      forall e | e in Export(ts)
        ensures exists j :: 0 <= j < |ts| && ts[j].status == Completed && e == ExportRowOf(ts[j])
      {
        if e in rest {
          var j :| 0 <= j < |ts[1..]| && ts[1..][j].status == Completed && e == ExportRowOf(ts[1..][j]);
          assert ts[1..][j] == ts[j + 1];
        } else {
          assert ts[0].status == Completed && e == ExportRowOf(ts[0]);
        }
      }
      forall j | 0 <= j < |ts| && ts[j].status == Completed ensures ExportRowOf(ts[j]) in Export(ts) {
        if j > 0 {
          assert ts[j] == ts[1..][j - 1];
        }
      }
    }
  }

  /** Exporting a concatenation exports each half. */
  lemma {:induction false} ExportAppend(a: seq<BatchTicket>, b: seq<BatchTicket>)
    ensures Export(a + b) == Export(a) + Export(b)
    decreases |a|
  {
    if a != [] {
      assert (a + b)[1..] == a[1..] + b;
      ExportAppend(a[1..], b);
    } else {
      assert a + b == b;
    }
  }
}

/**
 * The criteria check of the single-ticket screen. It never reads the parsed
 * criteria text: the thresholds (more than 100 rows, largest sale above 5000)
 * are fixed, and the verdict carries a one-line report of the two measured
 * values with a check mark or a cross for each.
 */
module Evaluation {
  import opened Text

  /** One result row. Sales are whole numbers here (see README). */
  datatype QueryResult = QueryResult(productId: string, sales: int, region: Option<string>, date: Option<string>)

  datatype Verdict = Verdict(passed: bool, message: string)

  const RowThreshold: int := 100
  const SalesThreshold: int := 5000
  const NoResults: string := "No results"
  const CheckMark: char := '\U{2705}'
  const CrossMark: char := '\U{274C}'

  /** `Math.max(...results.map(r => r.sales))` */
  function MaxSales(results: seq<QueryResult>): (m: int)
    requires |results| > 0
    ensures exists k :: 0 <= k < |results| && results[k].sales == m
    ensures forall k :: 0 <= k < |results| ==> results[k].sales <= m
  {
    if |results| == 1 then results[0].sales
    else
      var rest := MaxSales(results[1..]);
      assert forall k :: 1 <= k < |results| ==> results[k] == results[1..][k - 1];
      if results[0].sales > rest then results[0].sales else rest
  }

  function Mark(ok: bool): char {
    if ok then CheckMark else CrossMark
  }

  /** ` (✅ > 100)` or ` (❌ > 100)`: one sub-check's mark and threshold. */
  function Check(ok: bool, threshold: string): string {
    " (" + [Mark(ok)] + " > " + threshold + ")"
  }

  /** The report line for a non-empty result set. */
  function Report(rowCount: nat, maxSales: int): string {
    "ROWCOUNT = " + NatToString(rowCount) + Check(rowCount > RowThreshold, "100")
    + ", MAX(sales) = " + IntToString(maxSales) + Check(maxSales > SalesThreshold, "5000")
  }

  /** `evaluateCriteria`, with the result rows passed in. */
  function EvaluateCriteria(results: seq<QueryResult>): (v: Verdict)
    ensures |results| == 0 ==> v == Verdict(false, NoResults)
    ensures v.passed <==>
      |results| > RowThreshold && exists k :: 0 <= k < |results| && results[k].sales > SalesThreshold
  {
    if |results| == 0 then Verdict(false, NoResults)
    else
      var rowCount := |results|;
      var maxSales := MaxSales(results);
      Verdict(rowCount > RowThreshold && maxSales > SalesThreshold, Report(rowCount, maxSales))
  }

  /** The message of a non-empty evaluation shows the row count, the largest sale and both marks. */
  lemma EvaluateCriteriaReadsBack(results: seq<QueryResult>)
    requires |results| > 0
    ensures ReadReport(EvaluateCriteria(results).message)
         == Some(Reading(|results|, |results| > RowThreshold, MaxSales(results), MaxSales(results) > SalesThreshold))
  {
    ReadReportOfReport(|results|, MaxSales(results));
  }

  // ---------------------------------------------------------------------
  // Reading a report back
  // ---------------------------------------------------------------------

  /** What a reader of the report line learns: both values and both marks. */
  datatype Reading = Reading(rowCount: nat, rowCountPassed: bool, maxSales: int, maxSalesPassed: bool)

  function ReadNat(s: string): Option<(nat, string)> {
    var n := DigitRun(s);
    if n == 0 then None else Some((ParseDigits(s[..n]), s[n..]))
  }

  function ReadInt(s: string): Option<(int, string)> {
    if |s| > 0 && s[0] == '-' then
      var r :- ReadNat(s[1..]);
      var v: int := -(r.0 as int);
      Some((v, r.1))
    else
      var r :- ReadNat(s);
      Some((r.0, r.1))
  }

  function ReadMark(s: string): Option<(bool, string)> {
    if |s| > 0 && s[0] == CheckMark then Some((true, s[1..]))
    else if |s| > 0 && s[0] == CrossMark then Some((false, s[1..]))
    else None
  }

  function ReadCheck(s: string, threshold: string): Option<(bool, string)> {
    var s0 :- Expect(s, " (");
    var mark :- ReadMark(s0);
    var s1 :- Expect(mark.1, " > " + threshold + ")");
    Some((mark.0, s1))
  }

  /** Parse a report line back into the values it shows. */
  function ReadReport(msg: string): Option<Reading> {
    var s0 :- Expect(msg, "ROWCOUNT = ");
    var rows :- ReadNat(s0);
    var rowCheck :- ReadCheck(rows.1, "100");
    var s1 :- Expect(rowCheck.1, ", MAX(sales) = ");
    var sales :- ReadInt(s1);
    var salesCheck :- ReadCheck(sales.1, "5000");
    if salesCheck.1 == [] then Some(Reading(rows.0, rowCheck.0, sales.0, salesCheck.0)) else None
  }

  lemma ReadNatOfNatToString(n: nat, rest: string)
    requires rest == [] || !IsDigit(rest[0])
    ensures ReadNat(NatToString(n) + rest) == Some((n, rest))
  {
    var d := NatToString(n);
    DigitRunOfDigits(d, rest);
    assert (d + rest)[..|d|] == d;
    assert (d + rest)[|d|..] == rest;
    ParseNatToString(n);
  }

  lemma ReadIntOfIntToString(i: int, rest: string)
    requires rest == [] || !IsDigit(rest[0])
    ensures ReadInt(IntToString(i) + rest) == Some((i, rest))
  {
    if i < 0 {
      ReadNegative(i, rest);
    } else {
      ReadNonNegative(i, rest);
    }
  }

  lemma ReadNegative(i: int, rest: string)
    requires i < 0 && (rest == [] || !IsDigit(rest[0]))
    ensures ReadInt(IntToString(i) + rest) == Some((i, rest))
  {
    var s := IntToString(i) + rest;
    ReadNatOfNatToString(-i, rest);
    NegativeText(i, rest);
    ReadMinus(s, i, rest);
  }

  lemma NegativeText(i: int, rest: string)
    requires i < 0
    ensures (IntToString(i) + rest)[0] == '-'
    ensures (IntToString(i) + rest)[1..] == NatToString(-i) + rest
  {
    assert IntToString(i) + rest == ['-'] + (NatToString(-i) + rest);
  }

  lemma ReadMinus(s: string, i: int, rest: string)
    requires i < 0 && |s| > 0 && s[0] == '-' && ReadNat(s[1..]) == Some((-i, rest))
    ensures ReadInt(s) == Some((i, rest))
  {
  }

  lemma ReadNonNegative(i: int, rest: string)
    requires i >= 0 && (rest == [] || !IsDigit(rest[0]))
    ensures ReadInt(IntToString(i) + rest) == Some((i, rest))
  {
    var d := NatToString(i);
    ReadNatOfNatToString(i, rest);
    assert (d + rest)[0] == d[0];
    assert IsDigit(d[0]);
  }

  lemma ExpectPrefix(lit: string, rest: string)
    ensures Expect(lit + rest, lit) == Some(rest)
  {
    assert (lit + rest)[..|lit|] == lit;
    assert (lit + rest)[|lit|..] == rest;
  }

  lemma ReadCheckOfCheck(ok: bool, threshold: string, rest: string)
    ensures ReadCheck(Check(ok, threshold) + rest, threshold) == Some((ok, rest))
  {
    var close := " > " + threshold + ")";
    var t := [Mark(ok)] + (close + rest);
    assert Check(ok, threshold) + rest == " (" + t;
    ExpectPrefix(" (", t);
    assert ReadMark(t) == Some((ok, close + rest));
    ExpectPrefix(close, rest);
  }

  /** The report line shows the row count and the largest sale exactly, with the mark each check earned. */
  lemma ReadReportOfReport(rowCount: nat, maxSales: int)
    ensures ReadReport(Report(rowCount, maxSales))
         == Some(Reading(rowCount, rowCount > RowThreshold, maxSales, maxSales > SalesThreshold))
  {
    var c2 := Check(maxSales > SalesThreshold, "5000");
    var t1 := IntToString(maxSales) + c2;
    var t0 := ", MAX(sales) = " + t1;
    var c1 := Check(rowCount > RowThreshold, "100");
    var u := c1 + t0;
    var w := NatToString(rowCount) + u;
    ReportShape(rowCount, maxSales);
    ExpectPrefix("ROWCOUNT = ", w);
    CheckStartsWithSpace(rowCount > RowThreshold, "100", t0);
    ReadNatOfNatToString(rowCount, u);
    ReadCheckOfCheck(rowCount > RowThreshold, "100", t0);
    ExpectPrefix(", MAX(sales) = ", t1);
    CheckStartsWithSpace(maxSales > SalesThreshold, "5000", []);
    ReadIntOfIntToString(maxSales, c2);
    ReadCheckOfCheck(maxSales > SalesThreshold, "5000", []);
    ReadReportSteps(Report(rowCount, maxSales), w, rowCount, u, rowCount > RowThreshold, t0, t1,
                    maxSales, c2, maxSales > SalesThreshold);
  }

  /** The report line regrouped as the reader consumes it: literal, count, check, literal, sale, check. */
  lemma ReportShape(rowCount: nat, maxSales: int)
    ensures Report(rowCount, maxSales)
         == "ROWCOUNT = " + (NatToString(rowCount) + (Check(rowCount > RowThreshold, "100")
            + (", MAX(sales) = " + (IntToString(maxSales) + Check(maxSales > SalesThreshold, "5000")))))
  {
  }

  lemma CheckStartsWithSpace(ok: bool, threshold: string, rest: string)
    ensures Check(ok, threshold) + rest != [] && (Check(ok, threshold) + rest)[0] == ' '
    ensures Check(ok, threshold) + [] == Check(ok, threshold)
  {
  }

  lemma ReadReportSteps(msg: string, w: string, rows: nat, u: string, rowOk: bool, t0: string, t1: string,
                        sales: int, c2: string, salesOk: bool)
    requires Expect(msg, "ROWCOUNT = ") == Some(w)
    requires ReadNat(w) == Some((rows, u))
    requires ReadCheck(u, "100") == Some((rowOk, t0))
    requires Expect(t0, ", MAX(sales) = ") == Some(t1)
    requires ReadInt(t1) == Some((sales, c2))
    requires ReadCheck(c2, "5000") == Some((salesOk, []))
    ensures ReadReport(msg) == Some(Reading(rows, rowOk, sales, salesOk))
  {
  }
}

/**
 * The single-ticket screen: three steps (paste and parse, validate and
 * execute, results and replies), the actions each step offers, and the two
 * reply templates built from the verdict.
 */
module Workflow {
  import opened Text
  import opened TicketParse
  import opened Evaluation

  /** The screen's state: the step shown, the text area, the parsed ticket and the result rows. */
  datatype Screen = Screen(step: int, content: string, ticket: Option<ParsedTicket>, results: seq<QueryResult>)

  /**
   * What the user can do. `Execute` carries the rows the query returned;
   * `Reset` is the "Process Another Ticket" button.
   */
  datatype Action = Type(text: string) | Parse | Execute(rows: seq<QueryResult>) | Reset

  const Start: Screen := Screen(1, "", None, [])

  /**
   * Each step renders only its own card, so only its controls exist: the
   * text area and the parse button (disabled while the text is blank) in
   * step 1, the execute button in step 2 once a ticket is parsed, the reset
   * button in step 3.
   */
  predicate Offered(s: Screen, a: Action) {
    match a
    case Type(_) => s.step == 1
    case Parse => s.step == 1 && Trim(s.content) != []
    case Execute(_) => s.step == 2 && s.ticket.Some?
    case Reset => s.step == 3
  }

  /** The handlers; an action not on screen leaves everything as it is. */
  function Step(s: Screen, a: Action): (t: Screen)
    ensures !Offered(s, a) ==> t == s
    ensures a.Type? && Offered(s, a) ==> t == s.(content := a.text)
    ensures a.Parse? ==> t.content == s.content && t.results == s.results
    ensures a.Reset? && Offered(s, a) ==> t == Start
    ensures a.Execute? && Offered(s, a) ==> t.step == 3 && t.results == a.rows && t.ticket == s.ticket
  {
    if !Offered(s, a) then s
    else
      match a
      case Type(text) => s.(content := text)
      case Parse =>
        (match ParseTicket(s.content)
         case Some(p) => s.(ticket := Some(p), step := 2)
         case None => s)
      case Execute(rows) => s.(results := rows, step := 3)
      case Reset => Screen(1, "", None, [])
  }

  /** Parsing moves on to step 2 exactly when the ticket parses, and keeps the parsed ticket; otherwise nothing changes. */
  lemma ParseStep(s: Screen)
    requires Offered(s, Parse)
    ensures Step(s, Parse).step == 2 <==> ParseTicket(s.content).Some?
    ensures ParseTicket(s.content).Some? ==> Step(s, Parse).ticket == ParseTicket(s.content)
    ensures ParseTicket(s.content).None? ==> Step(s, Parse) == s
  {
  }

  /** What holds on every screen the user can reach. */
  predicate Consistent(s: Screen) {
    && 1 <= s.step <= 3
    && (s.step == 1 <==> s.ticket.None?)
    && (s.step < 3 ==> s.results == [])
    && (s.ticket.Some? ==> s.ticket.value.id != [])
  }

  /** The step changes only 1 to 2 (parse), 2 to 3 (execute) and 3 to 1 (reset), and consistency is kept. */
  lemma StepMoves(s: Screen, a: Action)
    requires Consistent(s)
    ensures Consistent(Step(s, a))
    ensures var t := Step(s, a);
      t.step == s.step
      || (s.step == 1 && t.step == 2 && a.Parse?)
      || (s.step == 2 && t.step == 3 && a.Execute?)
      || (s.step == 3 && t.step == 1 && a.Reset?)
  {
  }

  function Run(s: Screen, actions: seq<Action>): Screen
    decreases |actions|
  {
    if actions == [] then s else Run(Step(s, actions[0]), actions[1..])
  }

  /** Every screen reachable from the start is consistent. */
  lemma {:induction false} RunConsistent(s: Screen, actions: seq<Action>)
    requires Consistent(s)
    ensures Consistent(Run(s, actions))
    decreases |actions|
  {
    if actions != [] {
      StepMoves(s, actions[0]);
      RunConsistent(Step(s, actions[0]), actions[1..]);
    }
  }

  // ---------------------------------------------------------------------
  // Reply templates
  // ---------------------------------------------------------------------

  const PlaceholderId: string := "HELIX-XXXXX"

  /** `parsedTicket?.id || 'HELIX-XXXXX'` */
  function TicketLabel(ticket: Option<ParsedTicket>): (shown: string)
    ensures ticket.Some? && ticket.value.id != [] ==> shown == ticket.value.id
    ensures ticket.None? ==> shown == PlaceholderId
    ensures shown != []
  {
    if ticket.Some? && ticket.value.id != [] then ticket.value.id else PlaceholderId
  }

  function VerdictWord(passed: bool): string {
    if passed then "PASSED" else "FAILED"
  }

  /** The fixed criteria: more than 100 rows and some sale above 5000. */
  predicate MeetsThresholds(results: seq<QueryResult>) {
    |results| > RowThreshold && exists k :: 0 <= k < |results| && results[k].sales > SalesThreshold
  }

  /** The line that reports the verdict of `evaluateCriteria`: PASSED exactly when the thresholds are met. */
  function VerdictLine(prefix: string, results: seq<QueryResult>): (line: string)
    ensures line == prefix + VerdictWord(MeetsThresholds(results))
  {
    prefix + VerdictWord(EvaluateCriteria(results).passed)
  }

  /** The e-mail template, line by line. */
  function EmailTemplate(ticket: Option<ParsedTicket>, results: seq<QueryResult>): (lines: seq<string>)
    ensures |lines| == 14
    ensures lines[0] == "Subject: Results for " + TicketLabel(ticket)
    ensures lines[6] == "Query Results: " + NatToString(|results|) + " rows returned"
    ensures lines[7] == "Criteria Evaluation: " + VerdictWord(MeetsThresholds(results))
    ensures lines[8] == "Details: " + EvaluateCriteria(results).message
  {
    EmailHead(ticket, |results|)
      + [VerdictLine("Criteria Evaluation: ", results), "Details: " + EvaluateCriteria(results).message]
      + EmailTail
  }

  /** The greeting and the row count, ahead of the verdict. */
  function EmailHead(ticket: Option<ParsedTicket>, rowCount: nat): (lines: seq<string>)
    ensures |lines| == 7 && lines[0] == "Subject: Results for " + TicketLabel(ticket)
    ensures lines[6] == "Query Results: " + NatToString(rowCount) + " rows returned"
  {
    [ "Subject: Results for " + TicketLabel(ticket),
      "",
      "Dear Requester,",
      "",
      "Your SQL query has been executed successfully with the following results:",
      "",
      "Query Results: " + NatToString(rowCount) + " rows returned" ]
  }

  const EmailTail: seq<string> := [
    "",
    "Please find the results attached or contact us if you need the data in a different format.",
    "",
    "Best regards,",
    "Database Team" ]

  /** The ticket-system reply, line by line; the timestamp is supplied by the caller. */
  function HelixReply(ticket: Option<ParsedTicket>, results: seq<QueryResult>, timestamp: string): (lines: seq<string>)
    ensures |lines| == 8
    ensures lines[1] == "Ticket: " + TicketLabel(ticket)
    ensures lines[4] == "Results: " + NatToString(|results|) + " rows returned."
    ensures lines[5] == "Criteria evaluation: " + VerdictWord(MeetsThresholds(results))
    ensures lines[6] == "Details: " + EvaluateCriteria(results).message
    ensures lines[7] == "Execution timestamp: " + timestamp
  {
    HelixHead(ticket, |results|)
      + [VerdictLine("Criteria evaluation: ", results), "Details: " + EvaluateCriteria(results).message]
      + ["Execution timestamp: " + timestamp]
  }

  /** The reply's opening lines, ahead of the verdict. */
  function HelixHead(ticket: Option<ParsedTicket>, rowCount: nat): (lines: seq<string>)
    ensures |lines| == 5 && lines[1] == "Ticket: " + TicketLabel(ticket)
    ensures lines[4] == "Results: " + NatToString(rowCount) + " rows returned."
  {
    [ "[Automated Response]",
      "Ticket: " + TicketLabel(ticket),
      "Status: COMPLETED",
      "Query executed successfully.",
      "Results: " + NatToString(rowCount) + " rows returned." ]
  }

  /** On any reachable results screen the templates name the parsed ticket, never the placeholder fallback. */
  lemma ResultsScreenNamesTicket(s: Screen, timestamp: string)
    requires Consistent(s) && s.step == 3
    ensures EmailTemplate(s.ticket, s.results)[0] == "Subject: Results for " + s.ticket.value.id
    ensures HelixReply(s.ticket, s.results, timestamp)[1] == "Ticket: " + s.ticket.value.id
  {
  }
}

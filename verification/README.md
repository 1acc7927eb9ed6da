# Helix ticket simulator: a Dafny model of its core

The simulator is a web front end for a database team.

- **Single ticket.** An analyst pastes a ticket, and the screen extracts three things from it: the ticket id, the fenced SQL block and the "Success Criteria" line. It then runs the query, which the front end only simulates, and evaluates two fixed criteria against the rows: more than 100 rows, and a maximum sale above 5000. Finally it fills in two reply templates.
- **Batch.** A batch screen splits a blob of tickets on `---` and parses every section. It then "processes" the tickets one at a time with randomly drawn results and exports the completed ones.
- **Fix SQL.** A button rewrites five common SQL typos. It adds a missing semicolon, or reformats a statement that needed neither fix.
- **Chart.** A chart colours the two criteria bars and groups result rows by region.

This project models those pieces as pure Dafny functions over immutable datatypes and proves what they promise. The modules follow the source's structure:

| module | file | models |
|---|---|---|
| `Text` | text.dfy | The JavaScript string operations the core relies on: `trim`, `split`, case-insensitive comparison, decimal printing and reading. |
| `TicketParse` | ticket_parse.dfy | The three regular expressions of the ticket parser. Each is written as an explicit scan with the engine's leftmost, greedy and lazy semantics. |
| `Evaluation` | evaluation.dfy | `evaluateCriteria` and the report line it produces. |
| `Workflow` | workflow.dfy | The three-step screen and the e-mail and ticket-system reply templates. |
| `Batch` | batch.dfy | `parseBatchTickets`, `processBatchTickets`, `exportResults` and the status counters. |
| `SqlFix` | sql_fix.dfy | The "Fix SQL" button. |
| `CriteriaChart` | criteria_chart.dfy | The bar statuses and the region reduction of the criteria chart. |

**Regular expressions.** A global JavaScript `replace` is modelled as a left-to-right scan.

- At each position, the scan either rewrites the match that starts there and skips past it, or keeps one character.
- The `i` flag is ASCII upper-casing. The patterns are ASCII and carry no `u` flag.
- `\b` is modelled by carrying one bit that says whether the previous character is a word character.

**Randomness and delays.** The simulated delays (`setTimeout`) and `Math.random` are not modelled. Instead, the values they would produce are parameters:

- the batch takes one `Draw` per ticket: the drawn sales figures and the success flag;
- the single-ticket `Execute` action carries the rows the query returned;
- the ticket-system reply takes its timestamp as an argument.

## Model

| member | source | states |
|---|---|---|
| Text.Trim | src/pages/Index.tsx:68-69 | The result is free of white space at both ends, and it is exactly the text left after removing the leading and trailing white-space runs of the input. |
| Text.CoreIsTrim | src/components/BatchProcessor.tsx:75 | Any white-space-free-at-both-ends text that the input surrounds only with white space is the trimmed input. `trim` is therefore uniquely determined. |
| Text.Split | src/components/BatchProcessor.tsx:66 | `split('---')` returns at least one part, no part contains the separator, and every cut is made at the leftmost separator: in each part but the last followed by the separator, the first separator found is the one that ends it. |
| Text.JoinSplit | src/components/BatchProcessor.tsx:66 | Joining the parts of `split` with the separator gives back the original text, so no character is lost or invented. |
| Text.ParseNatToString | src/pages/Index.tsx:110 | Reading back the decimal digits printed for a row count yields the same number. |
| TicketParse.ExtractId | src/pages/Index.tsx:63 | There is no id exactly when no "Ticket #" is followed by an id character. Otherwise the id is the maximal `[\w-]` run after the leftmost such marker. |
| TicketParse.ExtractSql | src/pages/Index.tsx:61-68 | A SQL block exists exactly when some "```sql" has a "```" at or after its end. The value is the trimmed text between the first "```sql" and the first fence after it. |
| TicketParse.ExtractCriteria | src/pages/Index.tsx:62-69 | There are criteria exactly when some "Success Criteria:" is followed, after white space, by a character that is not a line break. The value is trimmed, lies on one line, and comes from the leftmost such marker. |
| TicketParse.CriteriaIsRestOfLine | src/pages/Index.tsx:62-69 | When the first visible character after the marker is at position e, the criteria are the trimmed rest of e's line. |
| TicketParse.CriteriaBlank | src/pages/Index.tsx:62-69 | A marker followed only by white space still matches, and the criteria are then empty. |
| TicketParse.ParseTicket | src/pages/Index.tsx:61-72 | A ticket is produced exactly when all three patterns match. Its id, SQL and criteria are then exactly the values the three extractors find, and it is flagged valid, its id is a non-empty run of id characters, and its SQL and criteria are trimmed. |
| Evaluation.MaxSales | src/pages/Index.tsx:103 | The maximum is the sales figure of some row, and no row exceeds it. |
| Evaluation.EvaluateCriteria | src/pages/Index.tsx:99-112 | An empty result set gives "No results" and fails. Otherwise the verdict passes exactly when there are more than 100 rows and some sale exceeds 5000. |
| Evaluation.EvaluateCriteriaReadsBack | src/pages/Index.tsx:102-110 | For a non-empty result set, the message parses back into the row count, the largest sale and the marks for the two thresholds. |
| Evaluation.ReadReportOfReport | src/pages/Index.tsx:110 | The report line can be parsed back into the row count, the maximum sale (negative ones included) and both check marks, so the message carries every value it claims. |
| Evaluation.ReadIntOfIntToString | src/pages/Index.tsx:110 | A printed integer followed by a non-digit reads back as itself, whatever its sign. |
| Workflow.Step | src/pages/Index.tsx:58-390 | An action whose control is not on the current step's card changes nothing. Typing replaces only the text. Parsing never alters the text or the results. Execute shows the rows in step 3 and keeps the ticket. Reset returns to the initial screen: step 1, empty text, no ticket and no rows. |
| Workflow.ParseStep | src/pages/Index.tsx:58-84 | Parse moves to step 2 exactly when the ticket parses, and keeps the parsed ticket. Otherwise it leaves the screen unchanged, as the error branch only shows a toast. |
| Workflow.StepMoves | src/pages/Index.tsx:58-390 | The step only moves 1→2 on parse, 2→3 on execute and 3→1 on reset, and each move keeps the screen consistent: a ticket is present exactly after step 1, and results appear only in step 3. |
| Workflow.RunConsistent | src/pages/Index.tsx:25-28 | Every screen reached from a consistent one by any sequence of actions is consistent. |
| Workflow.TicketLabel | src/pages/Index.tsx:114-142 | The templates name the parsed id, and fall back to "HELIX-XXXXX" only when there is no ticket. |
| Workflow.EmailTemplate | src/pages/Index.tsx:114-130 | The e-mail has 14 lines. Its subject names the ticket, the results line gives the number of rows, the verdict line says PASSED exactly when the thresholds are met, and the details line repeats the evaluation message. |
| Workflow.HelixReply | src/pages/Index.tsx:132-142 | The reply has 8 lines: the same ticket label, row count, verdict and details as the e-mail, and a last line carrying the given timestamp. |
| Workflow.ResultsScreenNamesTicket | src/pages/Index.tsx:114-142 | On every reachable results screen, both templates show the parsed ticket id and never the placeholder. |
| Batch.KeepNonBlank | src/components/BatchProcessor.tsx:66 | The filter keeps exactly the sections that are not all white space. |
| Batch.NonBlankIffTrimmed | src/components/BatchProcessor.tsx:66 | A section passes `section.trim()` exactly when it is not all white space. |
| Batch.KeepNonBlankAppend | src/components/BatchProcessor.tsx:66 | The filter distributes over concatenation, so it keeps the order of sections. |
| Batch.Sections | src/components/BatchProcessor.tsx:66 | Every kept section is non-blank and contains no `---`. |
| Batch.FallbackIdsDistinct | src/components/BatchProcessor.tsx:74 | Fallback ids of different positions differ. |
| Batch.ParseSection | src/components/BatchProcessor.tsx:68-80 | The id is the one `Ticket #` yields, or `BATCH-<index+1>` when there is none, and is never empty. The content is the trimmed section. SQL and criteria are what the two extractors find, or empty when they find nothing. The status is pending, with no results and no error. |
| Batch.ParseBatch | src/components/BatchProcessor.tsx:65-80 | There is one ticket per kept section, and the ticket at each position is that section parsed with that position as its index: non-empty content, no `---` inside, pending status. |
| Batch.BatchAgreesWithSingle | src/components/BatchProcessor.tsx:69-77 | For a section the single-ticket parser accepts, the batch parser extracts the same id, SQL and criteria. |
| Batch.MockRowsShape | src/components/BatchProcessor.tsx:107-111 | Mock rows have pairwise distinct product ids, and regions alternate West and East starting with West. |
| Batch.MockRowsInRange | src/components/BatchProcessor.tsx:107-111 | For any admissible draw there are 50 to 199 rows, each with sales from 1000 to 8999. |
| Batch.MockRows | src/components/BatchProcessor.tsx:107-111 | There is one row per drawn sales figure, in order, carrying that figure and no date. |
| Batch.Settled | src/components/BatchProcessor.tsx:117-124 | A settled ticket keeps its id, content, SQL and criteria. When the draw succeeded it is completed, its results are the mock rows of the draw and it has no error; otherwise it is failed, with no results and the error 'Query execution failed'. |
| Batch.ProcessOne | src/components/BatchProcessor.tsx:99-124 | One iteration first marks every ticket with the id as processing. The result has as many tickets as before, each ticket with that id is replaced by its settled form, and every other ticket is unchanged. |
| Batch.ProcessBatch | src/components/BatchProcessor.tsx:89-135 | An empty list returns immediately. Otherwise every ticket ends completed or failed, settled by the last iteration that carried its id. Progress starts at 0, rises strictly after each ticket, is (i/n)·100 after ticket i, and ends at 100. |
| Batch.Percent | src/components/BatchProcessor.tsx:127 | The progress after `done` of `n` tickets is the share done, times 100, and lies between 0 and 100 while no more than `n` are done. |
| Batch.PercentIncreases | src/components/BatchProcessor.tsx:127 | Progress stays within 0 to 100 and strictly increases with the number of tickets done. |
| Batch.CountStatus | src/components/BatchProcessor.tsx:173-174 | A count is zero exactly when no ticket has that status, and never exceeds the number of tickets. |
| Batch.CountStatusAppend | src/components/BatchProcessor.tsx:173-174 | Counting distributes over concatenation, and a single ticket counts 1 exactly when it has the status. |
| Batch.CountsBounded | src/components/BatchProcessor.tsx:173-174 | The completed and failed counters together never exceed the number of tickets. |
| Batch.StatusCountsAddUp | src/components/BatchProcessor.tsx:173-174 | The four status counts add up to the number of tickets. |
| Batch.CountsAfterBatch | src/components/BatchProcessor.tsx:173-174 | After a batch run, the completed and failed counters account for every ticket. |
| Batch.Export | src/components/BatchProcessor.tsx:137-145 | The export has one record per completed ticket, and every record is completed. |
| Batch.ExportMembers | src/components/BatchProcessor.tsx:138-145 | Every exported record comes from a completed ticket, and every completed ticket is exported. |
| Batch.ExportAppend | src/components/BatchProcessor.tsx:138 | Export distributes over concatenation, so records keep the tickets' order. |
| Batch.RowCount | src/components/BatchProcessor.tsx:143 | The exported row count is the number of result rows, and 0 when a ticket has none. |
| SqlFix.LiteralMatchIsOccurrence | src/components/SqlFixButton.tsx:26-43 | A case-insensitive literal pattern matches at a position exactly when the upper-cased text has the literal there. |
| SqlFix.ReplaceAll | src/components/SqlFixButton.tsx:52 | A global replace introduces no character that is neither in the text nor in the replacement. |
| SqlFix.NoOccurrenceUnchanged | src/components/SqlFixButton.tsx:52 | Replacing a literal that does not occur leaves the text unchanged. |
| SqlFix.ReplaceAtFirstOccurrence | src/components/SqlFixButton.tsx:52 | A global replace keeps the text before the first occurrence, writes the replacement, and continues on the rest. |
| SqlFix.ApplyRules | src/components/SqlFixButton.tsx:47-55 | The change flag is raised exactly when some rule's pattern occurs, ignoring case, in the text that rule sees. The text is that of `RewriteEach`, every rule's global replace applied in table order, the guard being harmless. When no rule fires, the text is unchanged. |
| SqlFix.ReplaceLeavesNone | src/components/SqlFixButton.tsx:52 | After a global replace of a pattern, no occurrence of a string is left, ignoring case, if it is the pattern itself or was absent before, provided the replacement cannot form it. |
| SqlFix.RewriteEachClears | src/components/SqlFixButton.tsx:50-55 | After the rules are applied in order, a rule's pattern no longer occurs when no replacement from that rule on can form it. |
| SqlFix.CommonFixesUntangled | src/components/SqlFixButton.tsx:24-45 | No replacement of the typo table can form its own pattern or an earlier rule's pattern, inside it or across its ends. |
| SqlFix.TyposCorrected | src/components/SqlFixButton.tsx:24-55 | After the typo pass, none of the five typo patterns occurs in the text, ignoring case. |
| SqlFix.ReplaceKeepsCanon | src/components/SqlFixButton.tsx:66-74 | A replacement that only adds or removes layout leaves the statement's visible characters unchanged, up to case. |
| SqlFix.FormatStepsLayoutOnly | src/components/SqlFixButton.tsx:67-74 | Each of the eight formatting rewrites only changes white space. |
| SqlFix.Format | src/components/SqlFixButton.tsx:66-75 | The formatted text is trimmed, and shows the same visible characters as the input, up to case. |
| SqlFix.FormatIsChain | src/components/SqlFixButton.tsx:66-75 | The formatting pass is the eight replaces of the source, in their order and with their replacements, followed by `trim`. |
| SqlFix.WordAbsentUnchanged | src/components/SqlFixButton.tsx:69-74 | A keyword replace leaves a text that does not contain the keyword, in any case, unchanged. |
| SqlFix.FormatLaysOutClauses | src/components/SqlFixButton.tsx:66-75 | The pass puts a line break and indent after a comma and opens a new line before FROM, upper-casing it: `x,y from t;` becomes `x,` / `  y ` / `FROM t;`. |
| SqlFix.CollapseSpaces | src/components/SqlFixButton.tsx:67 | After the first formatting step no two white-space characters are adjacent. The text is empty exactly when the input was, and it starts with white space exactly when the input did. |
| SqlFix.FixSql | src/components/SqlFixButton.tsx:24-89 | The result is always reported as a change and always ends in `;` once trimmed. When no typo occurs, a statement that already ends in `;` is formatted, and one that does not is trimmed and gets `;` with nothing else altered. When a typo occurs, the rewritten text is returned unformatted, trimmed and terminated only if it lacks `;`. |
| SqlFix.FinishKeepsStatement | src/components/SqlFixButton.tsx:57-77 | Without typos, the only visible change is a semicolon appended when one was missing. |
| SqlFix.SemicolonSurvivesFormat | src/components/SqlFixButton.tsx:64-75 | Formatting a statement that ends in `;` keeps the `;` at the end. |
| SqlFix.FormRuleRewritesInsideWord | src/components/SqlFixButton.tsx:30-31 | The FORM rule has no word boundaries, so it also rewrites inside words: "platform" becomes "platFROM". |
| SqlFix.FormRuleRewritesWordStart | src/components/SqlFixButton.tsx:30-31 | "FORMAT" becomes "FROMAT". |
| SqlFix.FormatRespectsWordBoundaries | src/components/SqlFixButton.tsx:69 | The formatting rewrites do respect `\b`: "xfrom" is not broken before "from". |
| SqlFix.LiteralIgnoresBoundary | src/components/SqlFixButton.tsx:26-43 | A typo rule's result does not depend on the character before the text, because no rule pattern uses `\b`. |
| CriteriaChart.RowCountStatus | src/components/CriteriaChart.tsx:21-28 | The row-count bar is "passed" exactly when the count exceeds 100. |
| CriteriaChart.MaxSalesStatus | src/components/CriteriaChart.tsx:31-38 | The max-sales bar is "passed" exactly when the maximum exceeds 5000. |
| CriteriaChart.ChartAgreesWithVerdict | src/components/CriteriaChart.tsx:21-38 | For a non-empty result set, both bars are "passed" exactly when the verdict of `evaluateCriteria` passes. |
| CriteriaChart.RegionLabel | src/components/CriteriaChart.tsx:48 | The label is never empty. It is the row's region whenever that is a non-empty string, and "Unknown" when the region is missing or empty. |
| CriteriaChart.FindEntry | src/components/CriteriaChart.tsx:42 | `find` returns the first entry whose label equals the row's region. A missing region matches nothing. |
| CriteriaChart.GroupConserves | src/components/CriteriaChart.tsx:41-54 | The entries' counts add up to the number of rows, their totals add up to the total sales, and there are no more entries than rows. |
| CriteriaChart.GroupByRegion | src/components/CriteriaChart.tsx:41-54 | Every label of the grouped entries is non-empty, and only "Unknown" may label more than one entry. |
| CriteriaChart.GroupTallies | src/components/CriteriaChart.tsx:41-54 | For each real region name, there is an entry exactly when some row has that region, and its count and total are that region's row count and sales. |
| CriteriaChart.MissingRegionAppendsUnknown | src/components/CriteriaChart.tsx:42-51 | A row without a region always opens a new "Unknown" entry. |
| CriteriaChart.TwoMissingRegionsTwoBars | src/components/CriteriaChart.tsx:42-51 | Two rows without a region give two separate "Unknown" entries. |
| CriteriaChart.LiteralUnknownMerges | src/components/CriteriaChart.tsx:42-45 | A row whose region is literally "Unknown" is added to the first "Unknown" entry. |
| CriteriaChart.GroupPrefixStable | src/components/CriteriaChart.tsx:41-54 | Entries appear in order of first occurrence: grouping a prefix of the rows gives a prefix of the labels. |

## Left out

- Rendering, toasts, the clipboard and the JSON download (`Blob`, `URL.createObjectURL`, `JSON.stringify`) are user-interface and browser I/O. `exportResults` is modelled up to the list of records.
- `setTimeout` delays and the `async` loop are not modelled. The batch loop is modelled as sequential iterations. `isProcessing` and the disabled buttons it drives are not modelled, so overlapping runs are not covered.
- `Math.random` is replaced by parameters: a `Draw` per batch ticket, and the rows carried by `Execute`. The single-ticket screen always receives 120 mock rows with random sales figures; the model lets `Execute` carry any rows instead.
- `new Date().toISOString()` is not modelled. The timestamp is a parameter of `Workflow.HelixReply`.
- Sales figures are JavaScript numbers. They are modelled as integers, which is what every value in the simulator is; progress is modelled as a real number.
- Workflow.EmailTemplate and Workflow.HelixReply: the contracts state every line that depends on the ticket, the rows or the timestamp. The fixed greeting, status and closing lines are written out in the functions but not restated in the contracts.
- The `try`/`catch` around the fix button only shows an error toast, and it is not modelled.
- `SimpleCriteriaChart`, `MultiQueryResults`, `ErrorDialog`, the API-mode toggle, the example tickets and the chart's layout configuration are outside the core and are not part of this model.
- The fix button performs only the five typo rewrites, the semicolon and the formatting; it never appends a row-limiting clause to the SQL.
- The criteria text is only extracted and displayed: evaluation always compares against the two fixed thresholds, and no `AND`-joined predicate in it is read.
- A ticket carries one SQL block; only the first fenced block is extracted.
- Batch.ProcessBatch: each iteration settles tickets by id, as the source does. When two sections share an id, both tickets take the outcome of the later iteration. This is stated through `SettledByLastRun`, not as "every ticket gets its own draw".

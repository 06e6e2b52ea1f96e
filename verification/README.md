# Rating analyser core, modelled in Dafny

The rating analyser answers free-text questions about session ratings. The ratings live in a
Google Sheet of live-class polls. For each question (`analyzeQuery`) the analyser does four
things:

1. It fetches the first tab whose title holds "Poll" (or "Sheet1").
2. It turns the raw rows into header-keyed records.
3. It picks the rows relevant to the question in tiers: instructor, domain, topic, intent
   keyword, and a per-instructor sample as the last resort. It sends those rows as CSV to a
   completion service.
4. If the completion fails, it answers with a report of its own: session counts, average
   ratings and a breakdown by domain or instructor.

This project models that pipeline as pure functions over immutable data and proves what each
stage promises. All of it lives in `backend/src/services/ratingAnalyzerService.js`.

| file | module | models |
|---|---|---|
| `wrappers.dfy` | `Wrappers` | `Option` and `Result`, for `null`/`undefined` and for thrown errors |
| `text.dfy` | `Text` | `toLowerCase` (ASCII), `includes`, `join`, `trim`, decimal printing of counts |
| `records.dfy` | `Records` | records (`map<string, Option<string>>`), `convertToStructured`, first-seen vocabularies (`[...new Set(...)]`) |
| `jsobject.dfy` | `JsObject` | the property names a plain `{}` inherits from `Object.prototype` |
| `relevance.dfy` | `Relevance` | `filterRelevantData`: the tiers, the domain-tier de-duplication, the sample |
| `rfc4180.dfy` | `Rfc4180` | a strict reader for the format of section 2 of RFC 4180, used to state the serialiser's round trip |
| `csv.dfy` | `Csv` | `formatAsCSV` and its round trip through the reader |
| `fallback.dfy` | `Fallback` | `performManualAnalysis`: `calculateAverage`, the grouping maps, the dispatch, the reply text |
| `orchestrator.dfy` | `Orchestrator` | tab choice, the fetch and its errors, `focusedGPT4Analysis`, `analyzeQuery` |

The model makes these choices:

- **Records.** A record maps header names to `Option<string>`. `None` is the `null` of a short
  row and also a key the record lacks (`undefined`). All records of one sheet have the same key
  set (`Records.StructureKeysUniform`), so `===` between two records' values of a field is
  equality of the looked-up options. A cell is truthy when it is a non-empty string.
- **Numbers.** `parseFloat` is a parameter `parse: string -> Option<real>`, where `None` is
  `NaN`. `toFixed(2)` is a parameter `fmt: real -> string`. Averages are exact reals.
- **Outside services.** The Sheets client is a `SheetsApi` value: whether it authenticates, the
  tab titles or an error, and a function from an A1 range to the values or an error. The
  completion service is a function from a `Prompt` to the content or an error.
- **Grouping maps.** The report's grouping maps are plain objects. A label that names an
  inherited property of `{}` (`constructor`, `toString`, `__proto__`, …) finds a truthy value
  that has no `push`. The analysis then throws a `TypeError`, and the reply is
  "Error performing analysis: domainMap[domain].push is not a function" (or
  `instructorMap[instructor]` for the domain report). The model keeps this error path. The
  sampling map drops an instructor named `__proto__`, because assigning that key replaces the
  prototype; the model keeps that too.

Two facts about the code shape the model:

- **De-duplication.** The code de-duplicates by the (Topic Code, Instructor, Session Date)
  triple only while appending domain-tier rows, against the rows gathered so far (:126-134).
  The instructor, topic, keyword and sample tiers never de-duplicate, and the model does the
  same. For a sheet whose records already have pairwise different triples, the result has
  pairwise different triples (`Relevance.FilterKeepsKeysDistinct`).
- **Dead keyword rules.** The "backend" and "fullstack" keyword rules can never select a row.
  Whenever some row's Domain is "Backend", the query holds "backend" and no domain matched,
  the domain tier would already have matched "Backend". So the rule only runs when it selects
  nothing (`Relevance.KeywordDomainRulesSelectNothing`). The same reasoning shows that the
  "No data found for instructor/domain" replies can never be produced
  (`Fallback.ManualAnalysisNeverFindsNoData`).

## Model

| member | source | states |
|---|---|---|
| Records.Structure | backend/src/services/ratingAnalyzerService.js:82-97 | fewer than two rows give no records; otherwise one record per data row, in order, each zipping the header row with its row: every header is a key, and the last column of a repeated name supplies its cell, `null` past the row's end |
| Records.BuildRecord | backend/src/services/ratingAnalyzerService.js:87-95 | the `forEach` over the headers yields the zip of headers and row (later columns overwrite earlier ones of the same name) |
| Records.StructureKeysUniform | backend/src/services/ratingAnalyzerService.js:86-96 | all records of one sheet have the header set as their key set |
| Records.FieldValues | backend/src/services/ratingAnalyzerService.js:105-107 | `map(...).filter(Boolean)` holds exactly the non-empty values some record carries in the field |
| Records.Distinct | backend/src/services/ratingAnalyzerService.js:105-107 | `[...new Set(xs)]` has no repeats and the same members as `xs` |
| Records.DistinctFirstSeenOrder | backend/src/services/ratingAnalyzerService.js:105-107 | the set keeps first-appearance order |
| Records.Vocabulary | backend/src/services/ratingAnalyzerService.js:105-107 | a vocabulary lists each non-empty field value carried by some record, once |
| Records.FieldValuesRecordOrder | backend/src/services/ratingAnalyzerService.js:105-107 | `map(...).filter(Boolean)` keeps record order: a value listed first before another is first carried by an earlier record |
| Records.VocabularyFirstSeenOrder | backend/src/services/ratingAnalyzerService.js:105-107 | vocabulary order is first-appearance order: an earlier entry's first record comes before a later entry's first record |
| Relevance.RowsWith | backend/src/services/ratingAnalyzerService.js:113 | `filter(row => row[field] === v)` keeps exactly the records with that value |
| Relevance.MatchedRows | backend/src/services/ratingAnalyzerService.js:110-117 | every record a vocabulary tier appends is an input record whose value is a mentioned vocabulary entry |
| Relevance.MatchedRowsPerEntry | backend/src/services/ratingAnalyzerService.js:110-117 | restricted to one value, a vocabulary tier is all records carrying it, in row order, when the value is a mentioned entry, and nothing otherwise |
| Relevance.MatchedRowsInVocabularyOrder | backend/src/services/ratingAnalyzerService.js:110-117 | a vocabulary tier's records come grouped by value, the groups in vocabulary order |
| Relevance.VocabularyTierSelectsMentioned | backend/src/services/ratingAnalyzerService.js:110-117 | a vocabulary tier over the field's own vocabulary selects, as a multiset, exactly the records whose non-empty value the lower-cased query contains |
| Relevance.VocabularyTierMembership | backend/src/services/ratingAnalyzerService.js:110-117 | a record is in a vocabulary tier's result if and only if its value is mentioned by the query |
| Relevance.TierNonEmptyIff | backend/src/services/ratingAnalyzerService.js:110-149 | a vocabulary tier selects something exactly when some record's value is mentioned |
| Relevance.FreshRows | backend/src/services/ratingAnalyzerService.js:126-134 | the domain tier appends only records whose triple is not yet present, never two with one triple, and leaves every triple of the candidates present |
| Relevance.AddUnseenAppendsFresh | backend/src/services/ratingAnalyzerService.js:126-134 | the `some`/`push` loop equals the gathered rows followed by the fresh candidates |
| Relevance.DomainTierAppendsFresh | backend/src/services/ratingAnalyzerService.js:120-138 | the whole domain loop appends exactly the fresh records among all domain matches |
| Relevance.KeywordRows | backend/src/services/ratingAnalyzerService.js:152-166 | the keyword rules select only input records |
| Relevance.KeywordDomainRulesSelectNothing | backend/src/services/ratingAnalyzerService.js:157-165 | when no domain is mentioned, the "backend" and "fullstack" rules select nothing |
| Relevance.SampleOf | backend/src/services/ratingAnalyzerService.js:173-176 | one instructor's sample consists of that instructor's records |
| Relevance.SampleInVocabularyOrder | backend/src/services/ratingAnalyzerService.js:168-180 | the sample's records come grouped by instructor, the groups in the instructor vocabulary's order |
| Relevance.SamplePerInstructor | backend/src/services/ratingAnalyzerService.js:168-180 | the sample holds, for each listed instructor except `__proto__`, the first `min(3, count)` of its records in row order, and nothing for others |
| Relevance.FilterRelevant | backend/src/services/ratingAnalyzerService.js:100-184 | every relevant record is an input record |
| Relevance.TierPrecedence | backend/src/services/ratingAnalyzerService.js:100-184 | an instructor or domain mention gives the instructor rows followed by the fresh domain rows; otherwise a topic mention gives the topic rows; otherwise a top-rating phrase gives the rated rows; otherwise the sample |
| Relevance.MentionedInstructorRowsIncluded | backend/src/services/ratingAnalyzerService.js:110-117 | every record of a mentioned instructor is relevant |
| Relevance.ExtendedQueryKeepsInstructorRows | backend/src/services/ratingAnalyzerService.js:110-117 | extending a query keeps every record the instructor tier selected for the shorter one |
| Relevance.SampleEmptyOnlyIfNoInstructors | backend/src/services/ratingAnalyzerService.js:168-181 | an empty sample means no record has an instructor other than `__proto__` |
| Relevance.FilterEmptyOnlyIfNoInstructors | backend/src/services/ratingAnalyzerService.js:100-184 | the relevant rows are empty only when no record has an instructor other than `__proto__` |
| Relevance.FilterKeepsKeysDistinct | backend/src/services/ratingAnalyzerService.js:100-184 | records with pairwise different triples stay so after filtering |
| Csv.FormatCsv | backend/src/services/ratingAnalyzerService.js:187-209 | the CSV text is empty exactly when there are no rows, and otherwise ends with a line feed |
| Csv.QuotedFieldReadsBack | backend/src/services/ratingAnalyzerService.js:199-201 | a quoted field with doubled quotes reads back as the original text |
| Csv.FieldReadsBack | backend/src/services/ratingAnalyzerService.js:195-203 | every encoded cell reads back as its text, `null` as the empty field, unless it holds a line feed but no comma or quote and so is written unquoted |
| Csv.LineReadsBack | backend/src/services/ratingAnalyzerService.js:195-205 | a joined line of encoded cells reads back as the cells' texts |
| Csv.LinesReadBack | backend/src/services/ratingAnalyzerService.js:194-206 | the data lines read back as one record per row, in order |
| Csv.CsvRoundTrip | backend/src/services/ratingAnalyzerService.js:187-209 | for plain header names and cells whose line feeds are quoted (a cell with a line feed also holds a comma or quote), reading the CSV with the RFC 4180 reader gives the header line and then every row's cell texts |
| Csv.LineBreakCellSplitsRecord | backend/src/services/ratingAnalyzerService.js:197-203 | a cell holding a line feed but no comma or quote is not quoted and reads back as two records |
| Csv.CommaInHeaderSplitsHeader | backend/src/services/ratingAnalyzerService.js:191 | a header name holding a comma is not quoted and reads back as two header fields |
| Fallback.RatingsMembers | backend/src/services/ratingAnalyzerService.js:290-297 | the surviving values are exactly the ratings of records whose cell is non-empty and parses to a non-zero number |
| Fallback.Average | backend/src/services/ratingAnalyzerService.js:289-302 | `calculateAverage` gives no value exactly when no record has a surviving rating |
| Fallback.AverageTimesCount | backend/src/services/ratingAnalyzerService.js:299-301 | the average times the number of surviving ratings is their sum |
| Fallback.AverageWithinRatings | backend/src/services/ratingAnalyzerService.js:289-302 | the average lies within any range holding every surviving rating |
| Fallback.UnratedRowIgnored | backend/src/services/ratingAnalyzerService.js:290-297 | a record with an empty, unparseable or zero rating does not change the average |
| Fallback.GroupByOutcome | backend/src/services/ratingAnalyzerService.js:317-324 | the grouping throws exactly when some label is inherited from `Object.prototype`, with the `push is not a function` message; otherwise it is the plain grouping |
| Fallback.GroupedLabels | backend/src/services/ratingAnalyzerService.js:317-324 | the grouping map's entries are the distinct labels (`'Unknown'` for none) in first-seen order |
| Fallback.GroupedRows | backend/src/services/ratingAnalyzerService.js:317-324 | each entry holds precisely the records with its label, in row order |
| Fallback.GroupedSize | backend/src/services/ratingAnalyzerService.js:317-324 | the entries together hold every record once |
| Fallback.FirstMentioned | backend/src/services/ratingAnalyzerService.js:305-306 | the chosen name is the first vocabulary entry the query mentions, and there is none exactly when no entry is mentioned |
| Fallback.ManualAnalysisDispatch | backend/src/services/ratingAnalyzerService.js:304-409 | a mentioned instructor wins over any domain; a domain report needs a mentioned domain and no mentioned instructor; the default reply comes exactly when neither is mentioned |
| Fallback.AnalyseSubject | backend/src/services/ratingAnalyzerService.js:305-406 | a report is the branch for the first mentioned instructor, or else for the first mentioned domain |
| Fallback.ManualAnalysisNeverFindsNoData | backend/src/services/ratingAnalyzerService.js:307-311 | the "No data found" replies never occur |
| Fallback.InstructorReportFacts | backend/src/services/ratingAnalyzerService.js:306-358 | the instructor report counts all of the instructor's records, lists one session per record in row order, and its per-domain lines count and average exactly each domain's records and add up to the total |
| Fallback.DomainReportFacts | backend/src/services/ratingAnalyzerService.js:364-405 | the domain report counts all of the domain's records, and its per-instructor lines count and average exactly each instructor's records and add up to the total |
| Fallback.ManualAnalysisErrorIff | backend/src/services/ratingAnalyzerService.js:283-413 | the analysis fails exactly when the chosen subject has a record whose breakdown label is inherited, and never for the default reply |
| Fallback.RenderReportsAverage | backend/src/services/ratingAnalyzerService.js:327-334 | an instructor or domain report (the domain report repeats these lines at :385-392) states its session count and its overall average: the formatted average when one exists, "No valid ratings available" when none does |
| Fallback.RenderSessionsNumbered | backend/src/services/ratingAnalyzerService.js:346-356 | session `k` is rendered as block number `first + k`, between the blocks of the sessions before and after it |
| Fallback.Render | backend/src/services/ratingAnalyzerService.js:327-412 | every reply is non-empty; a failure is rendered as "Error performing analysis: " and its message, and no other reply starts that way |
| Text.Trim | backend/src/services/ratingAnalyzerService.js:269 | `trim` returns a slice with only white space cut from either end, and keeps no white space at its ends |
| Text.TrimIdempotent | backend/src/services/ratingAnalyzerService.js:269 | trimming twice is trimming once |
| Orchestrator.ChooseTab | backend/src/services/ratingAnalyzerService.js:52-54 | "Sheet1" is chosen exactly when no title holds "Poll"; any other tab is the first title holding "Poll" |
| Orchestrator.ChooseTabFirstPoll | backend/src/services/ratingAnalyzerService.js:52-54 | the `find` finds nothing exactly when no title holds "Poll", and otherwise finds the first title that does |
| Orchestrator.FetchSheet | backend/src/services/ratingAnalyzerService.js:36-79 | a fetched sheet has at least one row, and every failure carries the fetch prefix |
| Orchestrator.FetchSheetOutcome | backend/src/services/ratingAnalyzerService.js:36-79 | the fetch succeeds exactly when the client authenticates, both calls succeed and the chosen tab's range has rows; it then returns that tab's rows |
| Orchestrator.BuildPrompt | backend/src/services/ratingAnalyzerService.js:215-226 | the prompt's CSV is empty exactly when no row is relevant |
| Orchestrator.PromptCsvReadsBack | backend/src/services/ratingAnalyzerService.js:187-226 | read back by an RFC 4180 reader, the prompt's CSV is the sheet's header row followed by the cell texts of exactly the relevant records, in order, for plain header names and cells whose line feeds get quoted |
| Orchestrator.AnalyzeQuery | backend/src/services/ratingAnalyzerService.js:417-437 | the result is `success: false` exactly when the fetch fails, with the fetch error |
| Orchestrator.AnalyzeQueryAnswer | backend/src/services/ratingAnalyzerService.js:212-280 | once the sheet is fetched, the answer is exactly `Trim` of the completion's content, or, when the completion fails, the rendered manual analysis of the same rows, which is never empty |
| Orchestrator.ManualErrorsAreAnswered | backend/src/services/ratingAnalyzerService.js:410-413 | a failed manual analysis still reaches the caller as `success: true` with the error text as data |

## Left out

- Google Sheets and OpenAI I/O: authentication, HTTP calls and the key files are parameters (`SheetsApi`, `complete`). Only their outcomes are modelled: a success, an error message, or no `values`.
- The prompt's fixed prose and the system message are not modelled. `Prompt` keeps the values the prompt is built from: query, counts, vocabularies and CSV.
- `parseFloat` prefix parsing, IEEE-754 arithmetic, `Infinity` and `toFixed(2)` rounding are left to the `parse` and `fmt` parameters. The model sums and divides exact reals, so it does not prove the rendered decimal text.
- Fallback.Average: states the exact mean, not the floating-point mean the source computes.
- `Object.entries`/`Object.values` list integer-like keys first, in ascending order. The model uses first-seen order for every key.
- Text.Lower: folds only ASCII letters. Non-ASCII case mapping of `toLowerCase` is not modelled.
- A header named `__proto__`: a string cell assigned to that key does not create a property, so the CSV reads the inherited `Object.prototype` there and writes `[object Object]` where the model writes the cell. A short row's `null` goes through the same setter and gives the record a `null` prototype, so the CSV writes the empty field, as the model does.
- Relevance.FilterEmptyOnlyIfNoInstructors: "empty only if no record has an instructor" holds only with the exception of an instructor named `__proto__`, which the sample drops.
- Csv.CsvRoundTrip: holds only for header names without `,`, `"` or line feed, because header names are never quoted, and for cells that hold a line feed only together with a comma or quote, because a line feed alone does not trigger quoting.
- Orchestrator.PromptCsvReadsBack: inherits the conditions of Csv.CsvRoundTrip, and also needs a non-empty header row, because an empty header row writes lines that read back as one empty field each.
- The reader ends records at a line feed, as the serialiser writes them; CRLF endings are not accepted.
- Console logging is a side effect with no bearing on results and is not modelled.
- `backend/src/debug-sheets.js`, authentication, accounts, e-mail, HTTP routing and the frontend are not part of this model.

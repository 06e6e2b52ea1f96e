/**
 * The query pipeline (`analyzeQuery`): fetch the poll sheet, ask the completion service about the
 * relevant rows, fall back to the manual analysis when that fails, and wrap the outcome in the
 * `{ success, data | error }` result the route returns. The Google Sheets client and the
 * completion service are parameters.
 */
module Orchestrator {
  import opened Wrappers
  import opened Text
  import opened Records
  import opened Relevance
  import opened Rfc4180
  import opened Csv
  import opened Fallback

  // ---------------------------------------------------------------------------------------
  // Choosing and fetching the sheet

  const LiveClassPoll := "Live Class Poll"
  const Poll := "Poll"
  const DefaultTab := "Sheet1"

  /** The first tab title satisfying the `find` predicate, which accepts a title holding
      "Live Class Poll" or "Poll". */
  function FirstPollTab(names: seq<string>): Option<string>
    decreases |names|
  {
    if names == [] then None
    else if Contains(names[0], LiveClassPoll) || Contains(names[0], Poll) then Some(names[0])
    else FirstPollTab(names[1..])
  }

  /** The tab the analyser reads (:52-54): the first poll tab, or "Sheet1" when there is none.
      A title can only be chosen if it holds "Poll", and no earlier title does. */
  function ChooseTab(names: seq<string>): (tab: string)
    ensures tab == DefaultTab <==> forall k :: 0 <= k < |names| ==> !Contains(names[k], Poll)
    ensures tab != DefaultTab ==> exists k :: 0 <= k < |names| && names[k] == tab && Contains(tab, Poll)
                                   && forall j :: 0 <= j < k ==> !Contains(names[j], Poll)
  {
    ChooseTabFirstPoll(names);
    DefaultTabIsNoPoll();
    match FirstPollTab(names)
    case Some(name) => name
    case None => DefaultTab
  }

  /** "Sheet1" does not hold "Poll", so the fallback is never mistaken for a poll tab. */
  lemma DefaultTabIsNoPoll()
    ensures !Contains(DefaultTab, Poll)
  {
    forall i | 0 <= i <= |DefaultTab| - |Poll|
      ensures !(Poll <= DefaultTab[i..])
    {
      assert DefaultTab[i..][0] == DefaultTab[i] != 'P';
    }
  }

  /** "Live Class Poll" itself holds "Poll", so the first disjunct adds nothing: the chosen tab
      is the first title holding "Poll". */
  lemma {:induction false} ChooseTabFirstPoll(names: seq<string>)
    ensures FirstPollTab(names).None? <==> forall k :: 0 <= k < |names| ==> !Contains(names[k], Poll)
    ensures FirstPollTab(names).Some? ==>
              exists k :: (0 <= k < |names| && names[k] == FirstPollTab(names).value && Contains(names[k], Poll)
                           && forall j :: 0 <= j < k ==> !Contains(names[j], Poll))
    decreases |names|
  {
    if names != [] {
      assert Contains(LiveClassPoll, Poll) by {
        assert Poll <= LiveClassPoll[11..];
      }
      if Contains(names[0], LiveClassPoll) {
        ContainsTransitive(names[0], LiveClassPoll, Poll);
      }
      ChooseTabFirstPoll(names[1..]);
      if !Contains(names[0], Poll) {
        assert forall k :: 1 <= k < |names| ==> names[k] == names[1..][k - 1];
        if FirstPollTab(names).Some? {
          var k :| 0 <= k < |names[1..]| && names[1..][k] == FirstPollTab(names).value
                   && Contains(names[1..][k], Poll)
                   && forall j :: 0 <= j < k ==> !Contains(names[1..][j], Poll);
          assert names[k + 1] == FirstPollTab(names).value;
        }
      }
    }
  }

  /** The A1 range requested from the chosen tab. */
  function SheetRange(tab: string): string {
    tab + "!A1:P1000"
  }

  /** The Sheets client as the analyser sees it: whether authentication succeeds, the outcome of
      listing the tab titles, and the outcome of reading a range (`None` when the response has
      no `values`). */
  datatype SheetsApi = SheetsApi(
    authenticated: bool,
    titles: Result<seq<string>, string>,
    values: string -> Result<Option<seq<seq<string>>>, string>)

  /** `{ sheetName, rows }`. */
  datatype RawSheet = RawSheet(sheetName: string, rows: seq<seq<string>>)

  const FetchPrefix := "Failed to fetch data from Google Sheets: "
  const AuthError := "Failed to authenticate with Google Sheets"
  const NoDataError := "No data found in the spreadsheet"

  /** `fetchDirectSheetData()` (:36-79): every failure, including the authentication failure and
      an empty sheet, is re-thrown with the fetch prefix. */
  function FetchSheet(api: SheetsApi): (sheet: Result<RawSheet, string>)
    ensures sheet.Success? ==> |sheet.value.rows| > 0
    ensures sheet.Failure? ==> FetchPrefix <= sheet.error
  {
    var inner := FetchInner(api);
    match inner
    case Success(s) => Success(s)
    case Failure(e) => Failure(FetchPrefix + e)
  }

  /** The body of the `try` in `fetchDirectSheetData`. */
  function FetchInner(api: SheetsApi): Result<RawSheet, string> {
    if !api.authenticated then Failure(AuthError)
    else
      var names :- api.titles;
      var tab := ChooseTab(names);
      var response :- api.values(SheetRange(tab));
      match response
      case None => Failure(NoDataError)
      case Some(rows) => if rows == [] then Failure(NoDataError) else Success(RawSheet(tab, rows))
  }

  /** The fetch succeeds exactly when the client authenticates, both calls succeed and the
      chosen tab's range holds at least one row; it then reads that tab's range. */
  lemma FetchSheetOutcome(api: SheetsApi)
    ensures FetchSheet(api).Success? <==>
              && api.authenticated
              && api.titles.Success?
              && api.values(SheetRange(ChooseTab(api.titles.value))).Success?
              && api.values(SheetRange(ChooseTab(api.titles.value))).value.Some?
              && api.values(SheetRange(ChooseTab(api.titles.value))).value.value != []
    ensures FetchSheet(api).Success? ==>
              && FetchSheet(api).value.sheetName == ChooseTab(api.titles.value)
              && Some(FetchSheet(api).value.rows) == api.values(SheetRange(ChooseTab(api.titles.value))).value
    ensures !api.authenticated ==> FetchSheet(api) == Failure(FetchPrefix + AuthError)
  {
  }

  // ---------------------------------------------------------------------------------------
  // The focused analysis

  /** What the completion request is built from (:222-250): the query, the record count, the
      selected rows' count, the instructor and domain vocabularies and the selected rows as CSV.
      The prose around them is fixed text and is not modelled. */
  datatype Prompt = Prompt(
    query: string, totalRows: nat, selectedRows: nat,
    instructors: seq<string>, domains: seq<string>, csv: string)

  /** `sheetData.rows[0]`; with no rows it is `undefined`, which only ever reaches the serialiser
      together with an empty selection. */
  function HeaderRow(rows: seq<seq<string>>): seq<string> {
    if rows == [] then [] else rows[0]
  }

  function BuildPrompt(query: string, rows: seq<seq<string>>): (p: Prompt)
    ensures p.csv == "" <==> FilterRelevant(query, Structure(rows)) == []
  {
    var rs := Structure(rows);
    var relevant := FilterRelevant(query, rs);
    Prompt(query, |rs|, |relevant|, Vocabulary(rs, Instructor), Vocabulary(rs, Domain),
           FormatCsv(HeaderRow(rows), relevant))
  }

  /** Which rows reach the completion service: read back with a strict RFC 4180 reader, the
      prompt's CSV is the sheet's header row followed by the cell texts of the relevant records, in
      order, and nothing else. It needs header names that are never quoted and line feeds only in
      cells that get quoted. */
  lemma PromptCsvReadsBack(query: string, rows: seq<seq<string>>)
    requires |rows| > 0 && |rows[0]| > 0
    requires forall h :: h in rows[0] ==> PlainHeader(h)
    requires QuotedLineBreaks(rows[0], FilterRelevant(query, Structure(rows)))
    ensures var relevant := FilterRelevant(query, Structure(rows));
            ParseDocument(BuildPrompt(query, rows).csv)
              == Some(if relevant == [] then [] else [rows[0]] + DecodedRows(rows[0], relevant))
  {
    CsvRoundTrip(rows[0], FilterRelevant(query, Structure(rows)));
  }

  /** `focusedGPT4Analysis(query, sheetData)` (:212-280). `complete` stands for the completion
      request and the read of the first choice's content: a failure of either (a thrown error, a
      missing choice, a `null` content) leads to the manual analysis. `parse` is `parseFloat`
      and `fmt` is `toFixed(2)`. */
  function FocusedAnalysis(query: string, sheet: RawSheet, complete: Prompt -> Result<string, string>,
                           parse: string -> Option<real>, fmt: real -> string): string
  {
    match complete(BuildPrompt(query, sheet.rows))
    case Success(content) => Trim(content)
    case Failure(_) => Render(ManualAnalysis(query, sheet.rows, parse), fmt)
  }

  /** The `{ success, data }` / `{ success, error }` object `analyzeQuery` resolves to. */
  datatype AnalysisResult = Answered(data: string) | Failed(error: string)

  /** `analyzeQuery(query)` (:417-437). */
  function AnalyzeQuery(query: string, api: SheetsApi, complete: Prompt -> Result<string, string>,
                        parse: string -> Option<real>, fmt: real -> string): (result: AnalysisResult)
    ensures result.Failed? <==> FetchSheet(api).Failure?
    ensures result.Failed? ==> FetchPrefix <= result.error
  {
    match FetchSheet(api)
    case Failure(e) => Failed(e)
    case Success(sheet) => Answered(FocusedAnalysis(query, sheet, complete, parse, fmt))
  }

  // ---------------------------------------------------------------------------------------
  // Properties of the pipeline

  /** With the sheet fetched, the answer is the completion's content trimmed of white space at
      both ends, or, when the completion fails, the manual analysis of the same rows, which is
      never empty. */
  lemma AnalyzeQueryAnswer(query: string, api: SheetsApi, complete: Prompt -> Result<string, string>,
                           parse: string -> Option<real>, fmt: real -> string)
    requires FetchSheet(api).Success?
    ensures var rows := FetchSheet(api).value.rows;
            var result := AnalyzeQuery(query, api, complete, parse, fmt);
            var reply := complete(BuildPrompt(query, rows));
            && result.Answered?
            && (reply.Success? ==> result.data == Trim(reply.value))
            && (reply.Failure? ==> result.data == Render(ManualAnalysis(query, rows, parse), fmt) && |result.data| > 0)
  {
  }

  /** A failure inside the manual analysis is still delivered as an answer: the caller sees
      `success: true` with the error text as its data. */
  lemma ManualErrorsAreAnswered(query: string, api: SheetsApi, complete: Prompt -> Result<string, string>,
                                parse: string -> Option<real>, fmt: real -> string)
    requires FetchSheet(api).Success?
    requires complete(BuildPrompt(query, FetchSheet(api).value.rows)).Failure?
    requires ManualAnalysis(query, FetchSheet(api).value.rows, parse).AnalysisError?
    ensures AnalyzeQuery(query, api, complete, parse, fmt).Answered?
    ensures ErrorPrefix <= AnalyzeQuery(query, api, complete, parse, fmt).data
  {
  }
}

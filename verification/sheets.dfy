/** The document source of backend/services/google_sheets.py: the guards in
    front of every API call and the parsing of the `Documents!A:A` column
    into documents. Authentication and the API requests are parameters:
    what they return, or the text of what they raised. */
module Sheets {
  import opened Wrappers
  import opened Text

  /** The service-account setup: the JSON text of the environment variable
      (empty when unset), whether `json.loads` accepts it, and whether the
      credentials and the service can be built from it. */
  datatype Credentials = Credentials(accountJson: string, jsonValid: bool, buildSucceeds: bool)

  /** What the service instance holds: whether it is already authenticated,
      the credentials to authenticate with, and the spreadsheet id (empty
      when not configured). */
  datatype SheetsService = SheetsService(authenticated: bool, credentials: Credentials, spreadsheetId: string)

  /** A fetched document: `{'content': ...}`. */
  datatype SheetDocument = SheetDocument(content: string)

  /** `authenticate()`: an unset variable, invalid JSON or a failing build
      all give `False`. */
  function Authenticate(c: Credentials): (ok: bool)
    ensures ok ==> c.accountJson != ""
    ensures ok <==> c.accountJson != "" && c.jsonValid && c.buildSucceeds
  {
    if c.accountJson == "" then false
    else if !c.jsonValid then false
    else c.buildSucceeds
  }

  /** The guards shared by `get_documents` and `add_document`: authenticate
      when there is no service yet, then require a spreadsheet id. */
  predicate Ready(s: SheetsService) {
    (s.authenticated || Authenticate(s.credentials)) && s.spreadsheetId != ""
  }

  // ---------------------------------------------------------------------
  // Row parsing

  /** The header test: the first cell, lower-cased but not stripped. */
  predicate IsHeader(cell: string) {
    Lower(cell) in {"content", "text", "document"}
  }

  /** A row gives a document when it has a first cell that is not blank. */
  predicate HasContent(row: seq<string>) {
    |row| >= 1 && !IsBlank(row[0])
  }

  /** What one row gives: its stripped first cell, when that is not blank. */
  function RowDocument(row: seq<string>): (r: Option<SheetDocument>)
    ensures r.Some? <==> HasContent(row)
    ensures r.Some? ==> r.value.content != "" && IsStripped(r.value.content)
  {
    if HasContent(row) then Some(SheetDocument(Strip(row[0]))) else None
  }

  /** A document as the loop produces it: non-empty and stripped. */
  predicate CleanDocument(d: SheetDocument) {
    d.content != "" && IsStripped(d.content)
  }

  /** The document loop over the rows after the header. */
  function RowDocuments(rows: seq<seq<string>>): (r: seq<SheetDocument>)
    ensures |r| <= |rows|
    ensures forall k :: 0 <= k < |r| ==> r[k].content != "" && IsStripped(r[k].content)
    ensures (forall k :: 0 <= k < |rows| ==> !HasContent(rows[k])) <==> r == []
  {
    CollectAll(rows, RowDocument, CleanDocument);
    CollectEmpty(rows, RowDocument);
    Collect(rows, RowDocument)
  }

  /** The loop handles rows one by one and in order. */
  lemma RowDocumentsAppend(a: seq<seq<string>>, b: seq<seq<string>>)
    ensures RowDocuments(a + b) == RowDocuments(a) + RowDocuments(b)
  {
    CollectConcat(a, b, RowDocument);
  }

  /** One row gives its stripped first cell when that is not blank, and
      nothing otherwise; cells after the first are ignored. */
  lemma RowDocumentsSingle(row: seq<string>)
    ensures HasContent(row) ==> RowDocuments([row]) == [SheetDocument(Strip(row[0]))]
    ensures !HasContent(row) ==> RowDocuments([row]) == []
    ensures |row| >= 1 ==> RowDocuments([row]) == RowDocuments([row[..1]])
  {
    assert [row][1..] == [];
    if |row| >= 1 {
      assert [row[..1]][1..] == [];
      assert row[..1][0] == row[0];
    }
  }

  /** Lines 76-91: `None` when looking at the first row raises (an empty
      first row has no `values[0][0]`). */
  function ParseValues(values: seq<seq<string>>): (r: Option<seq<SheetDocument>>)
    ensures values == [] ==> r == Some([])
    ensures values != [] && values[0] == [] ==> r.None?
    ensures values != [] && values[0] != [] ==> r.Some?
    ensures r.Some? ==> |r.value| <= |values| - (if values != [] && IsHeader(values[0][0]) then 1 else 0)
  {
    if values == [] then Some([])
    else if values[0] == [] then None
    else if IsHeader(values[0][0]) then Some(RowDocuments(values[1..]))
    else Some(RowDocuments(values))
  }

  /** The first row is dropped exactly when its first cell names the column:
      its own document is the only difference the header test makes. */
  lemma HeaderSkippedIffNamed(values: seq<seq<string>>)
    requires values != [] && values[0] != []
    ensures IsHeader(values[0][0]) ==> ParseValues(values).value == RowDocuments(values[1..])
    ensures !IsHeader(values[0][0]) ==>
              ParseValues(values).value == RowDocuments([values[0]]) + RowDocuments(values[1..])
  {
    assert values == [values[0]] + values[1..];
    RowDocumentsAppend([values[0]], values[1..]);
  }

  /** The header test is case-blind but not stripped: a padded column name
      is taken for a document. */
  lemma HeaderTestUnstripped()
    ensures IsHeader("Content")
    ensures !IsHeader(" content") && !IsHeader("text ")
  {
    assert Lower("Content") == "content";
    assert Lower(" content")[0] == ' ';
    assert |Lower("text ")| == 5 && Lower("text ")[4] == ' ';
  }

  /** An empty first row loses every later document. */
  lemma EmptyFirstRowLosesAll(rest: seq<seq<string>>, service: SheetsService)
    requires Ready(service)
    ensures GetDocuments(service, Ok([[]] + rest)) == []
  {
  }

  // ---------------------------------------------------------------------
  // get_documents and add_document

  /** `get_documents()`: `fetch` is the `values().get(...)` call, giving the
      `values` list (the empty list when the key is missing) or the text of
      what it raised. */
  function GetDocuments(service: SheetsService, fetch: Result<seq<seq<string>>, string>): (r: seq<SheetDocument>)
    ensures !Ready(service) ==> r == []
    ensures fetch.Err? ==> r == []
    ensures Ready(service) && fetch.Ok? && ParseValues(fetch.value).Some? ==> r == ParseValues(fetch.value).value
    ensures forall k :: 0 <= k < |r| ==> r[k].content != "" && IsStripped(r[k].content)
  {
    if !Ready(service) then []
    else
      match fetch
      case Err(_) => []
      case Ok(values) => ParseValues(values).GetOr([])
  }

  /** Without a service or a spreadsheet id nothing is fetched: the answer is
      the same whatever the API would have returned. */
  lemma NotReadyNeverFetches(service: SheetsService, f1: Result<seq<seq<string>>, string>,
                             f2: Result<seq<seq<string>>, string>)
    requires !Ready(service)
    ensures GetDocuments(service, f1) == GetDocuments(service, f2) == []
    ensures !AddDocument(service, true) && !AddDocument(service, false)
  {
  }

  /** Document `d` is what row `j` gives. */
  predicate FromRow(rows: seq<seq<string>>, j: int, d: SheetDocument) {
    0 <= j < |rows| && HasContent(rows[j]) && d.content == Strip(rows[j][0])
  }

  /** Every document comes from some row with content. */
  lemma DocumentFromRow(rows: seq<seq<string>>, k: nat)
    requires k < |RowDocuments(rows)|
    ensures exists j :: FromRow(rows, j, RowDocuments(rows)[k])
  {
    CollectFrom(rows, RowDocument, k);
    var j :| 0 <= j < |rows| && RowDocument(rows[j]) == Some(RowDocuments(rows)[k]);
    assert FromRow(rows, j, RowDocuments(rows)[k]);
  }

  /** Every row with content gives a document. */
  lemma RowsGiveDocuments(rows: seq<seq<string>>)
    ensures forall j :: 0 <= j < |rows| && HasContent(rows[j]) ==> SheetDocument(Strip(rows[j][0])) in RowDocuments(rows)
  {
    CollectHas(rows, RowDocument);
    forall j | 0 <= j < |rows| && HasContent(rows[j])
      ensures SheetDocument(Strip(rows[j][0])) in RowDocuments(rows)
    {
      assert RowDocument(rows[j]) == Some(SheetDocument(Strip(rows[j][0])));
    }
  }

  /** `add_document(content)`: `appended` tells whether the `append` call
      returned a reply with an `updates` entry; a failing call and a reply
      without one (its logging raises) both give `False`. */
  function AddDocument(service: SheetsService, appended: bool): (ok: bool)
    ensures ok <==> Ready(service) && appended
  {
    if !Ready(service) then false else appended
  }
}

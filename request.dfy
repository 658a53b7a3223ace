/** The POST handling of index.php: what the API call returns, how the
    result, status and error of a lookup are taken from it, and whether the
    request ends in a CSV download. */
module Request {
  import opened PhpValues
  import Mock
  import Filename
  import CsvExport

  /** What curl_exec gave: false with curl_error's message, or the body; in
      both cases with the HTTP code curl_getinfo reports (0 when no response
      arrived). */
  datatype Transport = Failed(message: string, code: int) | Received(body: string, code: int)

  /** The array call_api returns. json_decode is supplied by the caller:
      None stands for a body on which json_last_error reports an error. */
  function CallApi(t: Transport, jsonDecode: string -> Option<Value>): (resp: Value)
    ensures resp.Arr? && DistinctKeys(resp.entries)
    ensures Lookup(resp.entries, StrKey("status")) == Some(Int(t.code))
    ensures Lookup(resp.entries, StrKey("error")).Some? <==> t.Failed?
    ensures Lookup(resp.entries, StrKey("data")).Some? <==> t.Received?
    ensures t.Failed? ==> Lookup(resp.entries, StrKey("error")) == Some(Str("cURL error: " + t.message))
    ensures t.Received? && jsonDecode(t.body).Some? ==> Lookup(resp.entries, StrKey("data")) == Some(jsonDecode(t.body).value)
    ensures t.Received? && jsonDecode(t.body).None? ==>
      Lookup(resp.entries, StrKey("data")) == Some(Arr([Entry(StrKey("raw"), Str(t.body))]))
  {
    match t
    case Failed(message, code) =>
      Arr([Entry(StrKey("error"), Str("cURL error: " + message)), Entry(StrKey("status"), Int(code))])
    case Received(body, code) =>
      match jsonDecode(body)
      case Some(v) => Arr([Entry(StrKey("data"), v), Entry(StrKey("status"), Int(code))])
      case None => Arr([Entry(StrKey("data"), Arr([Entry(StrKey("raw"), Str(body))])), Entry(StrKey("status"), Int(code))])
  }

  /** `$result`, `$status` and `$error` after a lookup; Null where the
      handler leaves them null. */
  datatype Outcome = Outcome(result: Value, status: Value, error: Value)

  /** The result that stands in for missing data. */
  const NoDataResult: Value := Arr([Entry(StrKey("error"), Str("No data"))])

  /** `$resp[k]` read with `??` or isset(): a missing key reads as null. */
  function Get(resp: Value, k: string): (v: Value)
    ensures resp.Arr? && Lookup(resp.entries, StrKey(k)).Some? ==> v == Lookup(resp.entries, StrKey(k)).value
    ensures !resp.Arr? || Lookup(resp.entries, StrKey(k)).None? ==> v == Null
  {
    if resp.Arr? then
      match Lookup(resp.entries, StrKey(k))
      case Some(v) => v
      case None => Null
    else Null
  }

  /** The lookup outcome taken from call_api's array: the data unless it is
      missing or null, the status, and the error when one is set. */
  function Shape(resp: Value): (o: Outcome)
    ensures Get(resp, "data") != Null ==> o.result == Get(resp, "data")
    ensures Get(resp, "data") == Null ==> o.result == NoDataResult
    ensures o.status == Get(resp, "status")
    ensures o.error == Get(resp, "error")
  {
    var data := Get(resp, "data");
    Outcome(if data == Null then NoDataResult else data, Get(resp, "status"), Get(resp, "error"))
  }

  /** The outcome of a lookup through the API. */
  function ApiOutcome(t: Transport, jsonDecode: string -> Option<Value>): Outcome
  {
    Shape(CallApi(t, jsonDecode))
  }

  /** The four ways an API lookup ends. A transport failure has no data, so
      its result is the "No data" array and its error the curl message; a
      body that decodes to null also gives "No data", without an error; a
      body that decodes to anything else is the result; a body that does not
      decode is kept under "raw". The status is the HTTP code in every case. */
  lemma ApiOutcomeCases(t: Transport, jsonDecode: string -> Option<Value>)
    ensures var o := ApiOutcome(t, jsonDecode);
      && o.status == Int(t.code)
      && (t.Failed? ==> o.result == NoDataResult && o.error == Str("cURL error: " + t.message))
      && (t.Received? ==> o.error == Null)
      && (t.Received? && jsonDecode(t.body) == Some(Null) ==> o.result == NoDataResult)
      && (t.Received? && jsonDecode(t.body).Some? && jsonDecode(t.body).value != Null ==>
            o.result == jsonDecode(t.body).value)
      && (t.Received? && jsonDecode(t.body).None? ==> o.result == Arr([Entry(StrKey("raw"), Str(t.body))]))
  {
    var resp := CallApi(t, jsonDecode);
    assert resp.Arr?;
  }

  /** Whether a body that arrived decodes to something that makes the
      lookup's result falsy: false, 0, "", "0" or an empty array. A body that
      decodes to null is replaced by the "No data" array, which is truthy. */
  predicate DecodesFalsy(t: Transport, jsonDecode: string -> Option<Value>)
  {
    t.Received? && jsonDecode(t.body).Some? && jsonDecode(t.body).value != Null && IsEmpty(jsonDecode(t.body).value)
  }

  /** The result of an API lookup is truthy, so it reaches the summary and
      the download, exactly when the transport failed, the body does not
      decode, or it decodes to null or to a truthy value. */
  lemma ApiResultTruthy(t: Transport, jsonDecode: string -> Option<Value>)
    ensures !IsEmpty(ApiOutcome(t, jsonDecode).result) <==>
      t.Failed? || jsonDecode(t.body).None? || jsonDecode(t.body) == Some(Null) || !IsEmpty(jsonDecode(t.body).value)
    ensures !IsEmpty(ApiOutcome(t, jsonDecode).result) <==> !DecodesFalsy(t, jsonDecode)
  {
    ApiOutcomeCases(t, jsonDecode);
  }

  /** The outcome of a lookup in mock mode: status 200 and no error. */
  function MockOutcome(term: string, crc32: string -> int): (o: Outcome)
  {
    Outcome(Mock.MockLookup(term, crc32), Int(200), Null)
  }

  /** The mock result is an associative array, so it is exported as one row. */
  lemma MockResultIsOneRow(term: string, crc32: string -> int, jsonEncode: Value -> string)
    ensures var r := MockOutcome(term, crc32).result;
      && !IsEmpty(r) && IsAssoc(r) && CsvExport.RowsAreArrays(r)
      && CsvExport.Rows(r, jsonEncode) == [r.entries]
  {
    var r := MockOutcome(term, crc32).result;
    assert r.entries[0].key.StrKey?;
    IsAssocIff(r);
  }

  /** The form fields of a POST request. */
  datatype Form = Form(term: string, useMock: bool, downloadCsv: bool)

  /** The CSV attachment, or the page showing the outcome. */
  datatype Response = Download(filename: string, body: string) | Page(outcome: Outcome)

  /** The outcome a POST request leads to; the API transport is what the
      call would have returned for this term. */
  function LookupOutcome(form: Form, t: Transport, jsonDecode: string -> Option<Value>, crc32: string -> int): Outcome
  {
    if form.useMock then MockOutcome(form.term, crc32) else ApiOutcome(t, jsonDecode)
  }

  /** The POST branch of index.php: the lookup, then the download when it was
      asked for and the result is truthy, the page otherwise. */
  function HandlePost(form: Form, t: Transport, jsonDecode: string -> Option<Value>, crc32: string -> int,
                      jsonEncode: Value -> string): (resp: Response)
    requires var r := LookupOutcome(form, t, jsonDecode, crc32).result;
      form.downloadCsv && !IsEmpty(r) ==> CsvExport.RowsAreArrays(r)
    ensures resp.Download? <==> form.downloadCsv && !IsEmpty(LookupOutcome(form, t, jsonDecode, crc32).result)
    ensures resp.Download? ==> resp.filename == Filename.AttachmentName(form.term)
    ensures resp.Download? ==>
      resp.body == CsvExport.CsvText(LookupOutcome(form, t, jsonDecode, crc32).result, jsonEncode)
    ensures resp.Page? ==> resp.outcome == LookupOutcome(form, t, jsonDecode, crc32)
  {
    var o := LookupOutcome(form, t, jsonDecode, crc32);
    if form.downloadCsv && !IsEmpty(o.result) then
      Download(Filename.AttachmentName(form.term), CsvExport.CsvText(o.result, jsonEncode))
    else Page(o)
  }

  /** In mock mode a download is always served. */
  lemma MockDownload(term: string, t: Transport, jsonDecode: string -> Option<Value>, crc32: string -> int,
                     jsonEncode: Value -> string)
    ensures var form := Form(term, true, true);
      var r := LookupOutcome(form, t, jsonDecode, crc32).result;
      CsvExport.RowsAreArrays(r) &&
      HandlePost(form, t, jsonDecode, crc32, jsonEncode) ==
        Download(Filename.AttachmentName(term), CsvExport.CsvText(Mock.MockLookup(term, crc32), jsonEncode))
  {
    MockResultIsOneRow(term, crc32, jsonEncode);
  }

  /** The download decision in terms of the request and what the lookup
      returned: in mock mode a requested download is always served; through
      the API it is served exactly when it was requested and the body did not
      decode to a falsy value other than null. A download is named after the
      term and holds the CSV of the mock record or of the API result; a page
      shows the outcome of the lookup. */
  lemma DownloadDecision(form: Form, t: Transport, jsonDecode: string -> Option<Value>, crc32: string -> int,
                         jsonEncode: Value -> string)
    requires var r := LookupOutcome(form, t, jsonDecode, crc32).result;
      form.downloadCsv && !IsEmpty(r) ==> CsvExport.RowsAreArrays(r)
    ensures form.useMock ==>
      (HandlePost(form, t, jsonDecode, crc32, jsonEncode).Download? <==> form.downloadCsv)
    ensures !form.useMock ==>
      (HandlePost(form, t, jsonDecode, crc32, jsonEncode).Download? <==>
        form.downloadCsv && (t.Failed? || jsonDecode(t.body).None? || jsonDecode(t.body) == Some(Null) ||
                             !IsEmpty(jsonDecode(t.body).value)))
    ensures HandlePost(form, t, jsonDecode, crc32, jsonEncode).Download? ==>
      HandlePost(form, t, jsonDecode, crc32, jsonEncode) ==
        Download(Filename.AttachmentName(form.term),
                 CsvExport.CsvText(if form.useMock then Mock.MockLookup(form.term, crc32) else ApiOutcome(t, jsonDecode).result,
                                   jsonEncode))
    ensures HandlePost(form, t, jsonDecode, crc32, jsonEncode).Page? ==>
      HandlePost(form, t, jsonDecode, crc32, jsonEncode).outcome ==
        (if form.useMock then Outcome(Mock.MockLookup(form.term, crc32), Int(200), Null) else ApiOutcome(t, jsonDecode))
  {
    if form.useMock {
      MockResultIsOneRow(form.term, crc32, jsonEncode);
    } else {
      ApiResultTruthy(t, jsonDecode);
    }
  }
}

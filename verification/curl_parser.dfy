/** The decision chain of `parseCurlCommand`: which of the list or scalar `-d` data, the `-G`
    flag, a URL-encoded content type and `-F` multipart data decides the query parameters, the
    dangling parameters, the body and its content type, and how the request is assembled.
    The helpers it calls (argument parsing, header, query, URL, body and auth extraction,
    `decodeURIComponent`) are inputs: their results are fields of `CurlArgs`, and the ones called
    on values computed here are the functions of `CurlHelpers`. */
module CurlParser {
  import opened Wrappers
  import opened Strings
  import opened RestRequest

  const UrlEncodedContentType: string := "application/x-www-form-urlencoded"
  const MultipartContentType: string := "multipart/form-data"

  /** The `d` entry of the parsed arguments: absent, one string, a list of strings, or anything else. */
  datatype DataArg = NoData | DataString(s: string) | DataList(items: seq<string>) | DataOther

  /** What `getQueries` returns: structured parameters and the dangling ones left for the URL. */
  datatype QueryResult = QueryResult(queries: seq<KeyValueRow>, danglingParams: seq<string>)

  /** What `getBody` returns: a body string (`None` for `null`) with a content type, or multipart uploads. */
  datatype BodyObject =
    | BodyFields(body: Option<string>, contentType: Option<string>)
    | BodyUploads(uploads: seq<(string, string)>)

  /** The results of the helpers that read only the parsed arguments. */
  datatype CurlArgs = CurlArgs(
    headers: seq<(string, string)>,           // `getHeaders(...).headers`, as record entries
    rawContentType: string,                   // `getHeaders(...).rawContentType`
    httpMethod: Option<string>,               // `getMethod(...)`
    urlParams: seq<seq<string>>,              // `urlObject.searchParams.entries()`
    auth: RESTAuth,                           // `getAuthObject(...)`
    d: DataArg,
    gIsBoolean: bool,                         // `objHasProperty("G", "boolean")`
    formData: Option<seq<(string, string)>>)  // `getFArgumentMultipartData(...)`

  /** The helpers called on values the parser computes; `decodeURIComponent` answers `None` where it throws. */
  datatype CurlHelpers = CurlHelpers(
    recordToHoppHeaders: seq<(string, string)> -> seq<KeyValueRow>,
    getQueries: seq<seq<string>> -> QueryResult,
    concatParams: seq<string> -> string,
    getBody: (string, string, Option<string>) -> BodyObject,
    decodeURIComponent: string -> Option<string>)

  /** The only failure: `decodeURIComponent` throwing a `URIError` on a malformed `-d` item. */
  datatype CurlError = URIError

  /** `rawData`: the `-d` list as it is, one `-d` string, or `""`. */
  datatype RawData = RawText(text: string) | RawList(items: seq<string>)

  function GetRawData(d: DataArg): (r: RawData)
    ensures d.DataList? <==> r.RawList?
    ensures d.DataList? ==> r.items == d.items
    ensures d.DataString? ==> r == RawText(d.s)
    ensures d.NoData? || d.DataOther? ==> r == RawText("")
  {
    match d
    case DataList(items) => RawList(items)
    case DataString(s) => RawText(s)
    case _ => RawText("")
  }

  /** `pair.split("=", 2)` on one decoded `-d` item: the text before the first `=` and, when there is
      one, the text between the first and a second `=`; whatever follows a second `=` is dropped. */
  function DataPair(decoded: string): (p: seq<string>)
    ensures 1 <= |p| <= 2
    ensures '=' !in decoded ==> p == [decoded]
    ensures '=' in decoded ==> |p| == 2 && p[0] == decoded[..Seqs.IndexOf(decoded, '=')]
    ensures '=' in decoded ==> p[1] == UpTo(decoded[|p[0]| + 1..], '=')
  {
    var p := SplitLimit(decoded, '=', 2);
    if '=' in decoded then SplitAtFirst(decoded, '='); p else p
  }

  /** Joining a data pair back with `=` gives a prefix of the decoded item, and gives all of it
      when the item holds at most one `=`. */
  lemma DataPairRejoin(decoded: string)
    ensures Join(DataPair(decoded), "=") <= decoded
    ensures (forall i, j :: 0 <= i < j < |decoded| ==> !(decoded[i] == '=' && decoded[j] == '='))
              ==> Join(DataPair(decoded), "=") == decoded
  {
    var parts := Split(decoded, '=');
    if |parts| > 2 {
      JoinTake(parts, 2, "=");
    }
    if forall i, j :: 0 <= i < j < |decoded| ==> !(decoded[i] == '=' && decoded[j] == '=') {
      var i := Seqs.IndexOf(decoded, '=');
      if i >= 0 {
        var rest := decoded[i + 1..];
        assert '=' !in rest by {
          forall k | 0 <= k < |rest| ensures rest[k] != '=' {
            assert rest[k] == decoded[i + 1 + k];
          }
        }
        assert Seqs.IndexOf(rest, '=') == -1;
        assert parts == [decoded[..i]] + [rest];
      }
    }
  }

  /** The decoded and split `-d` items, or `None` when `decodeURIComponent` throws on one of them. */
  function DecodePairs(items: seq<string>, decode: string -> Option<string>): (r: Option<seq<seq<string>>>)
    ensures r.Some? <==> forall i :: 0 <= i < |items| ==> decode(items[i]).Some?
    ensures r.Some? ==> |r.value| == |items|
    ensures r.Some? ==> forall i :: 0 <= i < |items| ==> r.value[i] == DataPair(decode(items[i]).value)
  {
    if |items| == 0 then Some([])
    else
      match decode(items[0])
      case None => None
      case Some(first) =>
        match DecodePairs(items[1..], decode)
        case None =>
          assert exists i :: 0 <= i < |items[1..]| && decode(items[1..][i]).None?;
          None
        case Some(rest) =>
          assert forall i :: 1 <= i < |items| ==> items[i] == items[1..][i - 1];
          Some([DataPair(first)] + rest)
  }

  /** One pair rendered as `p.join(": ")`. */
  function RenderPair(p: seq<string>): string {
    Join(p, ": ")
  }

  function RenderPairs(pairs: seq<seq<string>>): (lines: seq<string>)
    ensures |lines| == |pairs|
    ensures forall i :: 0 <= i < |pairs| ==> lines[i] == RenderPair(pairs[i])
  {
    seq(|pairs|, i requires 0 <= i < |pairs| => RenderPair(pairs[i]))
  }

  /** The URL-encoded body text: the pairs as `key: value` lines joined by newlines, or `None`
      (`null`) when that text is empty. */
  function UrlEncodedText(pairs: seq<seq<string>>): (r: Option<string>)
    ensures r.None? <==> Join(RenderPairs(pairs), "\n") == ""
    ensures r.Some? ==> r.value == Join(RenderPairs(pairs), "\n")
  {
    var text := Join(RenderPairs(pairs), "\n");
    if text == "" then None else Some(text)
  }

  /** Splitting the URL-encoded body text at its newlines gives back one `key: value` line per pair
      when no key or value holds a newline. */
  lemma UrlEncodedTextLines(pairs: seq<seq<string>>)
    requires |pairs| >= 1
    requires forall i :: 0 <= i < |pairs| ==> '\n' !in RenderPair(pairs[i])
    requires UrlEncodedText(pairs).Some?
    ensures Split(UrlEncodedText(pairs).value, '\n') == RenderPairs(pairs)
  {
    SplitJoin(RenderPairs(pairs), '\n');
  }

  /** A multipart body: one active, non-file entry per upload, in order. */
  function MultipartBody(uploads: seq<(string, string)>): (r: ReqBody)
    ensures r.contentType == Some(MultipartContentType) && r.body.FormDataBody?
    ensures |r.body.entries| == |uploads|
    ensures forall i :: 0 <= i < |uploads| ==>
              r.body.entries[i] == FormDataKeyValue(uploads[i].0, uploads[i].1, true, false)
  {
    ReqBody(Some(MultipartContentType),
            FormDataBody(seq(|uploads|, i requires 0 <= i < |uploads| =>
                             FormDataKeyValue(uploads[i].0, uploads[i].1, true, false))))
  }

  /** `finalBody`: a non-empty body string wins, then a non-empty set of multipart uploads,
      and otherwise the default request's body. */
  function FinalBody(body: Option<string>, contentType: Option<string>, uploads: seq<(string, string)>,
                     defaultBody: ReqBody): (r: ReqBody)
    ensures body.Some? && body.value != "" ==> r == ReqBody(contentType, TextBody(body.value))
    ensures (body.None? || body.value == "") && |uploads| > 0 ==> r == MultipartBody(uploads)
    ensures (body.None? || body.value == "") && |uploads| == 0 ==> r == defaultBody
  {
    if body.Some? && |body.value| > 0 then ReqBody(contentType, TextBody(body.value))
    else if |uploads| > 0 then MultipartBody(uploads)
    else defaultBody
  }

  /** The state after the `-d` data has been looked at. `rawText` is what `getBody` would see:
      list data joined with no separator. */
  datatype DataStage = DataStage(
    queries: seq<KeyValueRow>,
    danglingParams: seq<string>,
    body: Option<string>,
    contentType: Option<string>,
    hasBodyBeenParsed: bool,
    rawText: string)

  /** The `-d` branch: list data goes to the query string under `-G`, becomes a URL-encoded body
      under a URL-encoded content type, and is otherwise joined into one string. */
  function ResolveData(args: CurlArgs, h: CurlHelpers, defaultContentType: Option<string>): Result<DataStage, CurlError> {
    var urlQueries := h.getQueries(args.urlParams);
    match GetRawData(args.d)
    case RawText(text) =>
      Success(DataStage(urlQueries.queries, urlQueries.danglingParams, Some(""), defaultContentType, false, text))
    case RawList(items) =>
      match DecodePairs(items, h.decodeURIComponent)
      case None => Failure(URIError)
      case Some(pairs) =>
        var joined := Join(items, "");
        if args.gIsBoolean && |pairs| > 0 then
          var newQueries := h.getQueries(pairs);
          Success(DataStage(urlQueries.queries + newQueries.queries,
                            urlQueries.danglingParams + newQueries.danglingParams,
                            Some(""), defaultContentType, true, joined))
        else if Includes(args.rawContentType, UrlEncodedContentType) && |pairs| > 0 then
          Success(DataStage(urlQueries.queries, urlQueries.danglingParams,
                            UrlEncodedText(pairs), Some(UrlEncodedContentType), true, joined))
        else
          Success(DataStage(urlQueries.queries, urlQueries.danglingParams, Some(""), defaultContentType, false, joined))
  }

  /** The body after the `-F` data and, when nothing has resolved it yet, `getBody`. */
  function ResolveBody(args: CurlArgs, h: CurlHelpers, stage: DataStage, defaultBody: ReqBody): ReqBody {
    var uploads := if args.formData.Some? then args.formData.value else [];
    var parsed := stage.hasBodyBeenParsed || args.formData.Some?;
    var rawContentType := if args.formData.Some? then MultipartContentType else args.rawContentType;
    if parsed then FinalBody(stage.body, stage.contentType, uploads, defaultBody)
    else
      match h.getBody(stage.rawText, rawContentType, stage.contentType)
      case BodyFields(body, contentType) => FinalBody(body, contentType, uploads, defaultBody)
      case BodyUploads(newUploads) => FinalBody(stage.body, stage.contentType, newUploads, defaultBody)
  }

  /** The method sent: the resolved one when it is a non-empty string, else the default's, upper-cased. */
  function RequestMethod(args: CurlArgs, defaults: RESTRequest): string {
    ToUpper(if args.httpMethod.Some? && args.httpMethod.value != "" then args.httpMethod.value
            else defaults.httpMethod)
  }

  /** `parseCurlCommand`, after argument parsing. `defaults` is the session's default request. */
  function ParseCurlCommand(args: CurlArgs, h: CurlHelpers, defaults: RESTRequest): (r: Result<RESTRequest, CurlError>)
    ensures r.Failure? <==>
              (args.d.DataList? && exists i :: 0 <= i < |args.d.items| && h.decodeURIComponent(args.d.items[i]).None?)
    ensures r.Success? ==> r.value.v == RESTReqSchemaVersion && r.value.id.None?
    ensures r.Success? ==> r.value.name == defaults.name
    ensures r.Success? ==> r.value.preRequestScript == defaults.preRequestScript
    ensures r.Success? ==> r.value.testScript == defaults.testScript
    ensures r.Success? ==> r.value.auth == args.auth
    ensures r.Success? ==>
              (r.value.httpMethod == ToUpper(if args.httpMethod.Some? && args.httpMethod.value != ""
                                             then args.httpMethod.value else defaults.httpMethod))
    ensures r.Success? && |args.headers| == 0 ==> r.value.headers == defaults.headers
    ensures r.Success? && |args.headers| > 0 ==> r.value.headers == h.recordToHoppHeaders(args.headers)
  {
    var hoppHeaders := if |args.headers| > 0 then h.recordToHoppHeaders(args.headers) else defaults.headers;
    match ResolveData(args, h, defaults.body.contentType)
    case Failure(e) => Failure(e)
    case Success(stage) =>
      var urlString := h.concatParams(stage.danglingParams);
      Success(MakeRESTRequest(RequestFields(
        None, defaults.name, RequestMethod(args, defaults), urlString, stage.queries, hoppHeaders,
        defaults.preRequestScript, defaults.testScript, args.auth,
        ResolveBody(args, h, stage, defaults.body))))
  }

  // ---------------------------------------------------------------------------------------
  // The branches of the decision chain

  /** The body when only the `-F` data can supply one: its uploads when there are any, else the default. */
  function UploadsOrDefault(formData: Option<seq<(string, string)>>, defaultBody: ReqBody): ReqBody {
    if formData.Some? && |formData.value| > 0 then MultipartBody(formData.value) else defaultBody
  }

  /** List `-d` data with `-G`: the decoded pairs follow the URL's own parameters, their dangling
      parameters follow the URL's, the endpoint is built from the merged dangling list, and no body
      text is produced, so only `-F` data can give a body. */
  lemma GetFlagMovesListDataToQuery(args: CurlArgs, h: CurlHelpers, defaults: RESTRequest)
    requires args.d.DataList? && |args.d.items| > 0 && args.gIsBoolean
    requires forall i :: 0 <= i < |args.d.items| ==> h.decodeURIComponent(args.d.items[i]).Some?
    ensures var r := ParseCurlCommand(args, h, defaults);
            var urlQueries := h.getQueries(args.urlParams);
            var newQueries := h.getQueries(DecodePairs(args.d.items, h.decodeURIComponent).value);
            && r.Success?
            && r.value.params == urlQueries.queries + newQueries.queries
            && r.value.endpoint == h.concatParams(urlQueries.danglingParams + newQueries.danglingParams)
            && r.value.body == UploadsOrDefault(args.formData, defaults.body)
  {
  }

  /** List `-d` data without `-G` under a URL-encoded content type: the body is the pairs as
      `key: value` lines with the URL-encoded content type, and it wins over any `-F` data; the
      query parameters are the URL's own. */
  lemma UrlEncodedListData(args: CurlArgs, h: CurlHelpers, defaults: RESTRequest)
    requires args.d.DataList? && |args.d.items| > 0 && !args.gIsBoolean
    requires Includes(args.rawContentType, UrlEncodedContentType)
    requires forall i :: 0 <= i < |args.d.items| ==> h.decodeURIComponent(args.d.items[i]).Some?
    ensures var r := ParseCurlCommand(args, h, defaults);
            var urlQueries := h.getQueries(args.urlParams);
            var text := UrlEncodedText(DecodePairs(args.d.items, h.decodeURIComponent).value);
            && r.Success?
            && r.value.params == urlQueries.queries
            && r.value.endpoint == h.concatParams(urlQueries.danglingParams)
            && (text.Some? ==> r.value.body == ReqBody(Some(UrlEncodedContentType), TextBody(text.value)))
            && (text.None? ==> r.value.body == UploadsOrDefault(args.formData, defaults.body))
  {
    var urlQueries := h.getQueries(args.urlParams);
    var pairs := DecodePairs(args.d.items, h.decodeURIComponent).value;
    var stage := DataStage(urlQueries.queries, urlQueries.danglingParams, UrlEncodedText(pairs),
                           Some(UrlEncodedContentType), true, Join(args.d.items, ""));
    assert ResolveData(args, h, defaults.body.contentType) == Success(stage);
    var uploads := if args.formData.Some? then args.formData.value else [];
    assert ResolveBody(args, h, stage, defaults.body) == FinalBody(stage.body, stage.contentType, uploads, defaults.body);
  }

  /** `-G` only acts on list `-d` data: with scalar or missing data it changes nothing, and the
      query parameters and endpoint come from the URL alone. */
  lemma GetFlagIgnoredWithoutListData(args: CurlArgs, h: CurlHelpers, defaults: RESTRequest)
    requires !args.d.DataList?
    ensures ParseCurlCommand(args.(gIsBoolean := true), h, defaults)
            == ParseCurlCommand(args.(gIsBoolean := false), h, defaults)
    ensures var r := ParseCurlCommand(args, h, defaults);
            var urlQueries := h.getQueries(args.urlParams);
            && r.Success?
            && r.value.params == urlQueries.queries
            && r.value.endpoint == h.concatParams(urlQueries.danglingParams)
  {
  }

  /** List `-d` data that neither `-G` nor a URL-encoded content type takes: the query parameters
      and endpoint come from the URL alone and, with `-F` data, the body is the multipart body (or
      the default when there are no uploads). */
  lemma ListDataFallsThrough(args: CurlArgs, h: CurlHelpers, defaults: RESTRequest)
    requires args.d.DataList?
    requires forall i :: 0 <= i < |args.d.items| ==> h.decodeURIComponent(args.d.items[i]).Some?
    requires |args.d.items| == 0 || (!args.gIsBoolean && !Includes(args.rawContentType, UrlEncodedContentType))
    ensures var r := ParseCurlCommand(args, h, defaults);
            var urlQueries := h.getQueries(args.urlParams);
            && r.Success?
            && r.value.params == urlQueries.queries
            && r.value.endpoint == h.concatParams(urlQueries.danglingParams)
            && (args.formData.Some? ==> r.value.body == UploadsOrDefault(args.formData, defaults.body))
  {
  }

  /** Without `-F` data, and unless `-G` or a URL-encoded content type took the list data, the body
      is what `getBody` makes of the data, list items concatenated with no separator. */
  lemma RawDataGoesToGetBody(args: CurlArgs, h: CurlHelpers, defaults: RESTRequest)
    requires args.formData.None?
    requires args.d.DataList? ==>
               && (forall i :: 0 <= i < |args.d.items| ==> h.decodeURIComponent(args.d.items[i]).Some?)
               && (|args.d.items| == 0 || (!args.gIsBoolean && !Includes(args.rawContentType, UrlEncodedContentType)))
    ensures var r := ParseCurlCommand(args, h, defaults);
            var text := if args.d.DataList? then Join(args.d.items, "") else GetRawData(args.d).text;
            var bodyObject := h.getBody(text, args.rawContentType, defaults.body.contentType);
            && r.Success?
            && (bodyObject.BodyFields? ==>
                  r.value.body == FinalBody(bodyObject.body, bodyObject.contentType, [], defaults.body))
            && (bodyObject.BodyUploads? ==>
                  r.value.body == UploadsOrDefault(Some(bodyObject.uploads), defaults.body))
  {
  }

  /** With `-F` data, `getBody` is never consulted. */
  lemma FormDataBypassesGetBody(args: CurlArgs, h: CurlHelpers, defaults: RESTRequest,
                                otherGetBody: (string, string, Option<string>) -> BodyObject)
    requires args.formData.Some?
    ensures ParseCurlCommand(args, h, defaults) == ParseCurlCommand(args, h.(getBody := otherGetBody), defaults)
  {
  }

  /** `-F` data together with scalar `-d` data: the data is discarded and the body is multipart
      (or the default, when there are no uploads). */
  lemma FormDataReplacesScalarData(args: CurlArgs, h: CurlHelpers, defaults: RESTRequest)
    requires args.formData.Some? && !args.d.DataList?
    ensures ParseCurlCommand(args, h, defaults).Success?
    ensures ParseCurlCommand(args, h, defaults).value.body == UploadsOrDefault(args.formData, defaults.body)
  {
  }

  /** With the data package's default request as the session default, a command without a method
      is sent as `GET`. */
  lemma MethodDefaultsToGet(args: CurlArgs, h: CurlHelpers)
    requires args.httpMethod.None? || args.httpMethod == Some("")
    requires ParseCurlCommand(args, h, DefaultRESTRequest()).Success?
    ensures ParseCurlCommand(args, h, DefaultRESTRequest()).value.httpMethod == "GET"
  {
    assert ToUpper("GET") == "GET";
  }
}

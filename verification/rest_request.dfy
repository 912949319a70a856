/** The REST request record of the data package: its version stamp, its default value, the
    legacy field-wise extraction from an untyped value, version detection and the equality
    that ignores blank header and parameter rows. */
module RestRequest {
  import opened Wrappers
  import opened Strings
  import opened Seqs

  /** The version tag `makeRESTRequest` stamps on every request. */
  const RESTReqSchemaVersion: string := "1"

  /** One header or query-parameter row (`HoppRESTHeader`, `HoppRESTParam`). */
  datatype KeyValueRow = KeyValueRow(key: string, value: string, active: bool)

  /** One multipart entry; file contents are not modelled, only the `isFile` marker. */
  datatype FormDataKeyValue = FormDataKeyValue(key: string, value: string, active: bool, isFile: bool)

  /** The `body` field of a request body: `null`, a string, or multipart entries. */
  datatype BodyValue = NullBody | TextBody(text: string) | FormDataBody(entries: seq<FormDataKeyValue>)

  /** `HoppRESTReqBody`: a content type (`None` for `null`) and the body value. */
  datatype ReqBody = ReqBody(contentType: Option<string>, body: BodyValue)

  /** `HoppRESTAuth`; the variants this model never inspects keep their fields as a map. */
  datatype RESTAuth =
    | AuthNone(authActive: bool)
    | AuthBasic(authActive: bool, username: string, password: string)
    | AuthBearer(authActive: bool, token: string)
    | AuthOther(authType: string, authActive: bool, fields: map<string, string>)

  /** `HoppRESTRequest` at schema version 1; `id` is optional. */
  datatype RESTRequest = RESTRequest(
    v: string,
    id: Option<string>,
    name: string,
    httpMethod: string,
    endpoint: string,
    params: seq<KeyValueRow>,
    headers: seq<KeyValueRow>,
    preRequestScript: string,
    testScript: string,
    auth: RESTAuth,
    body: ReqBody)

  /** What `makeRESTRequest` receives: a request without its version tag. */
  datatype RequestFields = RequestFields(
    id: Option<string>,
    name: string,
    httpMethod: string,
    endpoint: string,
    params: seq<KeyValueRow>,
    headers: seq<KeyValueRow>,
    preRequestScript: string,
    testScript: string,
    auth: RESTAuth,
    body: ReqBody)

  /** The fields of a request, its version tag dropped. */
  function Fields(r: RESTRequest): RequestFields {
    RequestFields(r.id, r.name, r.httpMethod, r.endpoint, r.params, r.headers,
                  r.preRequestScript, r.testScript, r.auth, r.body)
  }

  /** `makeRESTRequest`: the given fields, unchanged, with the current version tag. */
  function MakeRESTRequest(x: RequestFields): (r: RESTRequest)
    ensures r.v == RESTReqSchemaVersion
    ensures Fields(r) == x
  {
    RESTRequest(RESTReqSchemaVersion, x.id, x.name, x.httpMethod, x.endpoint, x.params, x.headers,
                x.preRequestScript, x.testScript, x.auth, x.body)
  }

  /** Every request that carries the current version tag is what `makeRESTRequest` builds from its fields. */
  lemma MakeRESTRequestOfFields(r: RESTRequest)
    requires r.v == RESTReqSchemaVersion
    ensures MakeRESTRequest(Fields(r)) == r
  {
  }

  /** The body of a request that has none. */
  const NoBody: ReqBody := ReqBody(None, NullBody)

  /** `getDefaultRESTRequest`. */
  function DefaultRESTRequest(): (r: RESTRequest)
    ensures r.v == RESTReqSchemaVersion && r.id.None?
    ensures r.httpMethod == "GET" && r.endpoint == "https://echo.hoppscotch.io" && r.name == "Untitled"
    ensures r.params == [] && r.headers == []
    ensures r.auth == AuthNone(true)
    ensures r.preRequestScript == "" && r.testScript == ""
    ensures r.body == NoBody
  {
    MakeRESTRequest(RequestFields(None, "Untitled", "GET", "https://echo.hoppscotch.io", [], [],
                                  "", "", AuthNone(true), NoBody))
  }

  // ---------------------------------------------------------------------------------------
  // Untyped input

  /** A JavaScript value as far as the extraction looks into it (numbers are integers here). */
  datatype JsValue =
    | JsUndefined
    | JsNull
    | JsBool(b: bool)
    | JsNumber(n: int)
    | JsString(s: string)
    | JsArray(items: seq<JsValue>)
    | JsObject(props: map<string, JsValue>)

  /** `!!x && typeof x === "object"`: a non-null object, arrays included. */
  predicate IsObject(x: JsValue) {
    x.JsArray? || x.JsObject?
  }

  /** `key in x` for the property names used here (an array has none of them). */
  predicate HasProp(x: JsValue, key: string) {
    x.JsObject? && key in x.props
  }

  /** `x[key]` when `key in x && typeof x[key] === "string"`. */
  function StringProp(x: JsValue, key: string): (r: Option<string>)
    ensures r.Some? <==> HasProp(x, key) && x.props[key].JsString?
    ensures r.Some? ==> x.props[key] == JsString(r.value)
  {
    if HasProp(x, key) && x.props[key].JsString? then Some(x.props[key].s) else None
  }

  /** `schema.safeParse(x[key])` when `key in x`; `None` when the key is missing or the parse fails. */
  function ParsedProp<T>(x: JsValue, key: string, parse: JsValue -> Option<T>): Option<T> {
    if HasProp(x, key) then parse(x.props[key]) else None
  }

  /** The `safeParse` of the body, auth, params and headers schemas; their internals are not modelled. */
  datatype RequestSchemas = RequestSchemas(
    body: JsValue -> Option<ReqBody>,
    auth: JsValue -> Option<RESTAuth>,
    params: JsValue -> Option<seq<KeyValueRow>>,
    headers: JsValue -> Option<seq<KeyValueRow>>)

  /** `safelyExtractRESTRequest`: start from the default and take each field from `x` only when
      it has the right shape; the version tag always stays the default's. */
  function SafelyExtractRESTRequest(x: JsValue, defaultReq: RESTRequest, schemas: RequestSchemas): (r: RESTRequest)
    ensures !IsObject(x) ==> r == defaultReq
    ensures r.v == defaultReq.v
    ensures StringProp(x, "id").Some? ==> r.id == StringProp(x, "id")
    ensures StringProp(x, "id").None? ==> r.id == defaultReq.id
    ensures StringProp(x, "name").Some? ==> r.name == StringProp(x, "name").value
    ensures StringProp(x, "name").None? ==> r.name == defaultReq.name
    ensures StringProp(x, "method").Some? ==> r.httpMethod == StringProp(x, "method").value
    ensures StringProp(x, "method").None? ==> r.httpMethod == defaultReq.httpMethod
    ensures StringProp(x, "endpoint").Some? ==> r.endpoint == StringProp(x, "endpoint").value
    ensures StringProp(x, "endpoint").None? ==> r.endpoint == defaultReq.endpoint
    ensures StringProp(x, "preRequestScript").Some? ==> r.preRequestScript == StringProp(x, "preRequestScript").value
    ensures StringProp(x, "preRequestScript").None? ==> r.preRequestScript == defaultReq.preRequestScript
    ensures StringProp(x, "testScript").Some? ==> r.testScript == StringProp(x, "testScript").value
    ensures StringProp(x, "testScript").None? ==> r.testScript == defaultReq.testScript
    ensures ParsedProp(x, "body", schemas.body).Some? ==> r.body == ParsedProp(x, "body", schemas.body).value
    ensures ParsedProp(x, "body", schemas.body).None? ==> r.body == defaultReq.body
    ensures ParsedProp(x, "auth", schemas.auth).Some? ==> r.auth == ParsedProp(x, "auth", schemas.auth).value
    ensures ParsedProp(x, "auth", schemas.auth).None? ==> r.auth == defaultReq.auth
    ensures ParsedProp(x, "params", schemas.params).Some? ==> r.params == ParsedProp(x, "params", schemas.params).value
    ensures ParsedProp(x, "params", schemas.params).None? ==> r.params == defaultReq.params
    ensures ParsedProp(x, "headers", schemas.headers).Some? ==> r.headers == ParsedProp(x, "headers", schemas.headers).value
    ensures ParsedProp(x, "headers", schemas.headers).None? ==> r.headers == defaultReq.headers
  {
    if !IsObject(x) then defaultReq
    else
      RESTRequest(
        defaultReq.v,
        if StringProp(x, "id").Some? then StringProp(x, "id") else defaultReq.id,
        StringProp(x, "name").GetOr(defaultReq.name),
        StringProp(x, "method").GetOr(defaultReq.httpMethod),
        StringProp(x, "endpoint").GetOr(defaultReq.endpoint),
        ParsedProp(x, "params", schemas.params).GetOr(defaultReq.params),
        ParsedProp(x, "headers", schemas.headers).GetOr(defaultReq.headers),
        StringProp(x, "preRequestScript").GetOr(defaultReq.preRequestScript),
        StringProp(x, "testScript").GetOr(defaultReq.testScript),
        ParsedProp(x, "auth", schemas.auth).GetOr(defaultReq.auth),
        ParsedProp(x, "body", schemas.body).GetOr(defaultReq.body))
  }

  /** A request written out as a plain object, with the given encodings of its structured fields. */
  function ToJs(r: RESTRequest, jsBody: JsValue, jsAuth: JsValue, jsParams: JsValue, jsHeaders: JsValue): JsValue {
    var fields := map[
      "v" := JsString(r.v), "name" := JsString(r.name), "method" := JsString(r.httpMethod),
      "endpoint" := JsString(r.endpoint), "preRequestScript" := JsString(r.preRequestScript),
      "testScript" := JsString(r.testScript), "body" := jsBody, "auth" := jsAuth,
      "params" := jsParams, "headers" := jsHeaders];
    JsObject(if r.id.Some? then fields["id" := JsString(r.id.value)] else fields)
  }

  /** The string fields the extraction reads from the object form of a request. */
  lemma ToJsStringProps(r: RESTRequest, jsBody: JsValue, jsAuth: JsValue, jsParams: JsValue, jsHeaders: JsValue)
    ensures var x := ToJs(r, jsBody, jsAuth, jsParams, jsHeaders);
            && IsObject(x)
            && StringProp(x, "id") == r.id
            && StringProp(x, "name") == Some(r.name)
            && StringProp(x, "method") == Some(r.httpMethod)
            && StringProp(x, "endpoint") == Some(r.endpoint)
  {
  }

  /** The scripts the extraction reads from the object form of a request. */
  lemma ToJsScriptProps(r: RESTRequest, jsBody: JsValue, jsAuth: JsValue, jsParams: JsValue, jsHeaders: JsValue)
    ensures var x := ToJs(r, jsBody, jsAuth, jsParams, jsHeaders);
            && StringProp(x, "preRequestScript") == Some(r.preRequestScript)
            && StringProp(x, "testScript") == Some(r.testScript)
  {
  }

  /** The structured fields the extraction hands to the schemas. */
  lemma ToJsStructuredProps(r: RESTRequest, jsBody: JsValue, jsAuth: JsValue, jsParams: JsValue, jsHeaders: JsValue)
    ensures var x := ToJs(r, jsBody, jsAuth, jsParams, jsHeaders);
            && HasProp(x, "body") && x.props["body"] == jsBody
            && HasProp(x, "auth") && x.props["auth"] == jsAuth
            && HasProp(x, "params") && x.props["params"] == jsParams
            && HasProp(x, "headers") && x.props["headers"] == jsHeaders
  {
  }

  /** Extraction recovers a request from its own object form when the schemas accept its structured
      fields: everything comes back except the version tag (always the default's) and a missing `id`
      (filled from the default). */
  lemma ExtractToJs(r: RESTRequest, defaultReq: RESTRequest, schemas: RequestSchemas,
                    jsBody: JsValue, jsAuth: JsValue, jsParams: JsValue, jsHeaders: JsValue)
    requires schemas.body(jsBody) == Some(r.body)
    requires schemas.auth(jsAuth) == Some(r.auth)
    requires schemas.params(jsParams) == Some(r.params)
    requires schemas.headers(jsHeaders) == Some(r.headers)
    ensures SafelyExtractRESTRequest(ToJs(r, jsBody, jsAuth, jsParams, jsHeaders), defaultReq, schemas)
            == r.(v := defaultReq.v, id := if r.id.Some? then r.id else defaultReq.id)
  {
    ToJsStringProps(r, jsBody, jsAuth, jsParams, jsHeaders);
    ToJsScriptProps(r, jsBody, jsAuth, jsParams, jsHeaders);
    ToJsStructuredProps(r, jsBody, jsAuth, jsParams, jsHeaders);
  }

  // ---------------------------------------------------------------------------------------
  // Version detection

  /** The `getVersion` of the versioned request entity: the integer `parseInt` reads from a string
      `v`; otherwise 0 when the version-0 schema accepts the value; otherwise `None`. */
  function GetVersion(data: JsValue, matchesV0: JsValue -> bool): (r: Option<int>)
    ensures StringProp(data, "v").Some? && ParseInt(StringProp(data, "v").value).Some? ==>
              r == ParseInt(StringProp(data, "v").value)
    ensures !(StringProp(data, "v").Some? && ParseInt(StringProp(data, "v").value).Some?) ==>
              (r == Some(0) <==> matchesV0(data)) && (r == None <==> !matchesV0(data))
  {
    match StringProp(data, "v")
    case Some(tag) =>
      (match ParseInt(tag)
       case Some(n) => Some(n)
       case None => if matchesV0(data) then Some(0) else None)
    case None => if matchesV0(data) then Some(0) else None
  }

  /** A value tagged with the decimal form of `n` is detected as version `n`, whatever the
      version-0 schema says. */
  lemma VersionOfDecimalTag(data: JsValue, n: nat, matchesV0: JsValue -> bool)
    requires StringProp(data, "v") == Some(Decimal(n))
    ensures GetVersion(data, matchesV0) == Some(n)
  {
    ParseIntDecimal(n);
  }

  /** The object form of a request `makeRESTRequest` built is detected as the latest version, 1. */
  lemma StampedRequestIsVersion1(x: RequestFields, matchesV0: JsValue -> bool,
                                 jsBody: JsValue, jsAuth: JsValue, jsParams: JsValue, jsHeaders: JsValue)
    ensures GetVersion(ToJs(MakeRESTRequest(x), jsBody, jsAuth, jsParams, jsHeaders), matchesV0) == Some(1)
  {
    var data := ToJs(MakeRESTRequest(x), jsBody, jsAuth, jsParams, jsHeaders);
    assert Decimal(1) == RESTReqSchemaVersion;
    assert StringProp(data, "v") == Some(Decimal(1));
    VersionOfDecimalTag(data, 1, matchesV0);
  }

  // ---------------------------------------------------------------------------------------
  // Equality

  /** A row the request equality skips: its key or its value is empty. */
  predicate IsBlankRow(row: KeyValueRow) {
    row.key == "" || row.value == ""
  }

  /** `rows.filter(r => r.key !== "" && r.value !== "")`. */
  function NonBlankRows(rows: seq<KeyValueRow>): (r: seq<KeyValueRow>)
    ensures |r| <= |rows|
    ensures forall i :: 0 <= i < |r| ==> !IsBlankRow(r[i])
    ensures forall x :: x in r <==> x in rows && !IsBlankRow(x)
    ensures |rows| == 1 && !IsBlankRow(rows[0]) ==> r == rows
    ensures (forall i :: 0 <= i < |rows| ==> !IsBlankRow(rows[i])) ==> r == rows
  {
    if |rows| == 0 then []
    else if IsBlankRow(rows[0]) then NonBlankRows(rows[1..])
    else [rows[0]] + NonBlankRows(rows[1..])
  }

  lemma {:induction false} NonBlankRowsAppend(xs: seq<KeyValueRow>, ys: seq<KeyValueRow>)
    ensures NonBlankRows(xs + ys) == NonBlankRows(xs) + NonBlankRows(ys)
  {
    if |xs| > 0 {
      assert (xs + ys)[1..] == xs[1..] + ys;
      NonBlankRowsAppend(xs[1..], ys);
    } else {
      assert xs + ys == ys;
    }
  }

  /** A request with its blank header and parameter rows removed. */
  function WithoutBlankRows(r: RESTRequest): RESTRequest {
    r.(headers := NonBlankRows(r.headers), params := NonBlankRows(r.params))
  }

  /** `isEqualHoppRESTRequest`: field-wise equality, with headers and params compared after
      dropping their blank rows. It holds exactly when the two requests agree once their blank
      rows are dropped. */
  function IsEqualRESTRequest(a: RESTRequest, b: RESTRequest): (eq: bool)
    ensures eq <==> WithoutBlankRows(a) == WithoutBlankRows(b)
  {
    && a.id == b.id
    && a.v == b.v
    && a.auth == b.auth
    && a.body == b.body
    && a.endpoint == b.endpoint
    && NonBlankRows(a.headers) == NonBlankRows(b.headers)
    && NonBlankRows(a.params) == NonBlankRows(b.params)
    && a.httpMethod == b.httpMethod
    && a.name == b.name
    && a.preRequestScript == b.preRequestScript
    && a.testScript == b.testScript
  }

  /** The request equality is an equivalence. */
  lemma IsEqualRESTRequestEquivalence(a: RESTRequest, b: RESTRequest, c: RESTRequest)
    ensures IsEqualRESTRequest(a, a)
    ensures IsEqualRESTRequest(a, b) ==> IsEqualRESTRequest(b, a)
    ensures IsEqualRESTRequest(a, b) && IsEqualRESTRequest(b, c) ==> IsEqualRESTRequest(a, c)
  {
  }

  /** A blank first row is filtered out. */
  lemma NonBlankRowsBlankHead(row: KeyValueRow, rows: seq<KeyValueRow>)
    requires IsBlankRow(row)
    ensures NonBlankRows([row] + rows) == NonBlankRows(rows)
  {
    assert ([row] + rows)[1..] == rows;
  }

  /** Inserting a blank row anywhere among the rows leaves their filtered form unchanged. */
  lemma BlankRowInsertion(rows: seq<KeyValueRow>, i: nat, row: KeyValueRow)
    requires i <= |rows| && IsBlankRow(row)
    ensures NonBlankRows(InsertAt(rows, i, row)) == NonBlankRows(rows)
  {
    var front, back := rows[..i], rows[i..];
    InsertAtConcat(rows, i, row);
    NonBlankRowsAppend(front, [row] + back);
    NonBlankRowsBlankHead(row, back);
    NonBlankRowsAppend(front, back);
    SplitAt(rows, i);
  }

  /** Adding a blank header row, anywhere, never changes whether two requests are equal. */
  lemma BlankHeaderIgnored(a: RESTRequest, b: RESTRequest, i: nat, row: KeyValueRow)
    requires i <= |a.headers| && IsBlankRow(row)
    ensures IsEqualRESTRequest(a.(headers := InsertAt(a.headers, i, row)), b) == IsEqualRESTRequest(a, b)
  {
    BlankRowInsertion(a.headers, i, row);
  }

  /** Adding a blank parameter row, anywhere, never changes whether two requests are equal. */
  lemma BlankParamIgnored(a: RESTRequest, b: RESTRequest, i: nat, row: KeyValueRow)
    requires i <= |a.params| && IsBlankRow(row)
    ensures IsEqualRESTRequest(a.(params := InsertAt(a.params, i, row)), b) == IsEqualRESTRequest(a, b)
  {
    BlankRowInsertion(a.params, i, row);
  }

  // ---------------------------------------------------------------------------------------
  // Legacy translation

  /** `translateToNewRequest`: the parsed (and migrated) request, or the default request when the
      versioned entity's `safeParse` fails. */
  function TranslateToNewRequest(x: JsValue, safeParse: JsValue -> Option<RESTRequest>): (r: RESTRequest)
    ensures safeParse(x).None? ==> r == DefaultRESTRequest()
    ensures safeParse(x).Some? ==> r == safeParse(x).value
  {
    match safeParse(x)
    case Some(req) => req
    case None => DefaultRESTRequest()
  }
}

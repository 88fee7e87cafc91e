/** `makeAPIGatewayPayload` (src/index.ts): build the API-Gateway proxy event that the
    invoked function expects, from the caller's optional request parameters. */
module Gateway {
  import opened Wrappers
  import opened JsonData
  import Hash

  /** `HttpMethods` (src/types.ts). */
  datatype HttpMethod = GET | POST | PUT | DELETE | PATCH | OPTIONS

  /** A body's content: a `Buffer` of raw bytes, or any other JSON-serialisable value. */
  datatype Content = Binary(bytes: seq<bv8>) | Structured(value: Json)

  /** `body` of the request parameters; both parts may be left out. */
  datatype BodyParams = BodyParams(content: Option<Content>, isBinary: Option<bool>)

  /** The request parameters (`PartialDeep<IAPIGatewayPayloadParams>`): every part optional. */
  datatype PayloadParams = PayloadParams(
    httpMethod: Option<HttpMethod>,
    resource: Option<string>,
    queryString: Option<Hash.LegalHash>,
    headers: Option<Hash.LegalHash>,
    body: Option<BodyParams>)

  datatype RequestContext = RequestContext(httpMethod: HttpMethod, resourcePath: string, protocol: string)

  /** The synthetic API-Gateway proxy event. */
  datatype ApiGatewayEvent = ApiGatewayEvent(
    path: string,
    httpMethod: HttpMethod,
    body: Option<string>,
    isBase64Encoded: bool,
    headers: Hash.StringHash,
    queryStringParameters: Hash.StringHash,
    resource: string,
    pathParameters: map<string, string>,
    stageVariables: map<string, string>,
    requestContext: RequestContext)

  /** The error thrown when `isBinary` is set but the content is not a `Buffer`. */
  datatype BuildError = BinaryContentNotBuffer

  /** The library encoders the builder relies on: `JSON.stringify` of the content and
      `Buffer.toString('base64')` (RFC 4648, section 4). */
  datatype Encoders = Encoders(stringify: Content -> string, base64: seq<bv8> -> string)

  const ProxyResource := "/{proxy+}"
  const ContentTypeKey := "Content-Type"
  const DefaultContentType := "application/json"
  const Protocol := "HTTP/1.1"

  predicate StartsWithSlash(s: string) {
    |s| > 0 && s[0] == '/'
  }

  /** The request path: "/" when no resource is given, otherwise the resource with a
      leading "/" added when it lacks one. */
  function NormalizePath(resource: Option<string>): (path: string)
    ensures StartsWithSlash(path)
    ensures resource.None? ==> path == "/"
    ensures resource.Some? ==> |resource.value| <= |path| <= |resource.value| + 1
    ensures resource.Some? ==> path[|path| - |resource.value|..] == resource.value
  {
    match resource
    case None => "/"
    case Some(r) => if StartsWithSlash(r) then r else "/" + r
  }

  /** The path is a shortest string that starts with "/" and ends with the resource
      (together with the function's own contract this fixes it uniquely). */
  lemma PathShortest(r: string, p: string)
    requires StartsWithSlash(p) && |r| <= |p| && p[|p| - |r|..] == r
    ensures |NormalizePath(Some(r))| <= |p|
  {
    if |p| == |r| {
      assert p == p[|p| - |r|..];
    }
  }

  /** A resource that already starts with "/" is kept unchanged. */
  lemma PathKept(r: string)
    requires StartsWithSlash(r)
    ensures NormalizePath(Some(r)) == r
  {
  }

  /** Any other resource gets a "/" in front. */
  lemma PathPrefixed(r: string)
    requires !StartsWithSlash(r)
    ensures NormalizePath(Some(r)) == "/" + r
  {
  }

  /** Normalising a normalised path changes nothing. */
  lemma PathIdempotent(resource: Option<string>)
    ensures NormalizePath(Some(NormalizePath(resource))) == NormalizePath(resource)
  {
  }

  /** `params.body?.isBinary ?? false` */
  function BinaryFlag(p: PayloadParams): bool {
    match p.body
    case None => false
    case Some(b) => b.isBinary.GetOr(false)
  }

  /** `params.body?.content ?? null`: `None` when the content is absent or JSON null. */
  function ContentOf(p: PayloadParams): (c: Option<Content>)
    ensures c != Some(Structured(JNull))
    ensures c.None? <==>
      p.body.None? || p.body.value.content.None? || p.body.value.content == Some(Structured(JNull))
    ensures c.Some? ==> c == p.body.value.content
  {
    match p.body
    case None => None
    case Some(BodyParams(Some(Structured(JNull)), _)) => None
    case Some(b) => b.content
  }

  /** The caller's headers, stringified and filtered, laid over the default Content-Type. */
  function MergeHeaders(headers: Option<Hash.LegalHash>): (r: Hash.StringHash)
    ensures ContentTypeKey in r
    ensures var h := headers.GetOr(map[]);
      r[ContentTypeKey] ==
        if ContentTypeKey in h && Hash.Stringify(h[ContentTypeKey]) != ""
        then Hash.Stringify(h[ContentTypeKey]) else DefaultContentType
    ensures forall k :: k != ContentTypeKey ==>
      (k in r <==> k in Hash.ToStringHash(headers.GetOr(map[])))
    ensures forall k :: k != ContentTypeKey && k in r ==>
      r[k] == Hash.ToStringHash(headers.GetOr(map[]))[k]
    ensures forall k :: k in r ==> r[k] != ""
  {
    map[ContentTypeKey := DefaultContentType] + Hash.ToStringHash(headers.GetOr(map[]))
  }

  /** The shape every synthetic event has: a path starting with "/" that is also the
      `proxy` path parameter, one method in both places, the fixed routing fields, a
      Content-Type header and only non-empty header and query values. */
  predicate WellFormed(e: ApiGatewayEvent) {
    && StartsWithSlash(e.path)
    && e.pathParameters == map["proxy" := e.path]
    && e.requestContext == RequestContext(e.httpMethod, ProxyResource, Protocol)
    && e.resource == ProxyResource
    && e.stageVariables == map[]
    && ContentTypeKey in e.headers
    && (forall k :: k in e.headers ==> e.headers[k] != "")
    && (forall k :: k in e.queryStringParameters ==> e.queryStringParameters[k] != "")
  }

  /** Build the event, or throw when binary content is announced but not given. */
  function MakeApiGatewayPayload(p: PayloadParams, enc: Encoders): (r: Result<ApiGatewayEvent, BuildError>)
    ensures r.Err? <==> BinaryFlag(p) && !(ContentOf(p).Some? && ContentOf(p).value.Binary?)
    ensures r.Ok? ==> WellFormed(r.value)
    ensures r.Ok? ==> r.value.path == NormalizePath(p.resource)
    ensures r.Ok? ==> r.value.httpMethod == p.httpMethod.GetOr(GET)
    ensures r.Ok? ==> r.value.isBase64Encoded == BinaryFlag(p)
    ensures r.Ok? ==> (r.value.body.None? <==> ContentOf(p).None?)
    ensures r.Ok? && r.value.isBase64Encoded ==>
      r.value.body == Some(enc.base64(ContentOf(p).value.bytes))
    ensures r.Ok? && !r.value.isBase64Encoded && ContentOf(p).Some? ==>
      r.value.body == Some(enc.stringify(ContentOf(p).value))
    ensures r.Ok? ==> r.value.headers == MergeHeaders(p.headers)
    ensures r.Ok? ==> r.value.queryStringParameters == Hash.ToStringHash(p.queryString.GetOr(map[]))
  {
    var httpMethod := p.httpMethod.GetOr(GET);
    var path := NormalizePath(p.resource);
    var isBase64Encoded := BinaryFlag(p);
    var content := ContentOf(p);
    if isBase64Encoded && !(content.Some? && content.value.Binary?) then
      Err(BinaryContentNotBuffer)
    else
      var body :=
        match content
        case None => None
        case Some(c) => if isBase64Encoded then Some(enc.base64(c.bytes)) else Some(enc.stringify(c));
      Ok(ApiGatewayEvent(
        path := path,
        httpMethod := httpMethod,
        body := body,
        isBase64Encoded := isBase64Encoded,
        headers := MergeHeaders(p.headers),
        queryStringParameters := Hash.ToStringHash(p.queryString.GetOr(map[])),
        resource := ProxyResource,
        pathParameters := map["proxy" := path],
        stageVariables := map[],
        requestContext := RequestContext(httpMethod, ProxyResource, Protocol)))
  }

  /** With no parameters at all: GET on "/", no body, not base64, only the default header. */
  lemma EmptyParamsDefaults(enc: Encoders)
    ensures var r := MakeApiGatewayPayload(PayloadParams(None, None, None, None, None), enc);
      && r.Ok?
      && r.value.httpMethod == GET
      && r.value.path == "/"
      && r.value.body == None
      && !r.value.isBase64Encoded
      && r.value.headers == map[ContentTypeKey := DefaultContentType]
  {
    var h: Hash.LegalHash := map[];
    assert Hash.ToStringHash(h) == map[];
  }

  /** A header whose value is empty is dropped; a non-empty one survives beside the default. */
  lemma HeaderExample()
    ensures MergeHeaders(Some(map["X-Empty" := Some(Hash.Text("")), "X-Token" := Some(Hash.Text("abc"))]))
      == map[ContentTypeKey := DefaultContentType, "X-Token" := "abc"]
  {
    var h := map["X-Empty" := Some(Hash.Text("")), "X-Token" := Some(Hash.Text("abc"))];
    assert Hash.ToStringHash(h) == map["X-Token" := "abc"];
  }
}

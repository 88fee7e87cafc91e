/** `invoke` and `apiGatewayInvoke` (src/index.ts): one call through the function
    invocation transport, and the gateway-style call that builds a synthetic event and
    sends it inside the retry loop. The transport is an oracle: the reply it gives to the
    k-th request carrying a given event. */
module Invoker {
  import opened Wrappers
  import opened JsonData
  import Gateway
  import Retry

  /** The SDK's `InvocationType`. */
  datatype InvocationType = Event | RequestResponse | DryRun

  /** What the transport does with one request: throw, or hand back a response whose
      `Payload` (a `Uint8Array`) may be absent. */
  datatype Reply = Raised(error: string) | Returned(payload: Option<seq<bv8>>)

  /** The library transforms used around the transport. */
  datatype Library = Library(
    encoders: Gateway.Encoders,               // JSON.stringify and base64 for the request body
    decode: seq<bv8> -> Result<Json, string>, // TextDecoder, then JSON.parse, of the reply bytes
    parse: string -> Result<Json, string>,    // JSON.parse of the response body
    coerce: Json -> string,                   // String(value): what JSON.parse does to a non-string
    camelize: Json -> Json)                   // humps.camelizeKeys

  /** What one attempt of the gateway call yields: the camel-cased parsed body, or the
      exception that was caught. */
  datatype Answer = Parsed(json: Json) | Exception(error: string)

  /** `{ attempts, delay }` as the caller may give them; each part may be left out. */
  datatype RetryOptions = RetryOptions(attempts: Option<int>, delay: Option<int>)

  /** The parameters of `apiGatewayInvoke`: the event parameters and the retry options. */
  datatype InvokeParams = InvokeParams(payload: Gateway.PayloadParams, retry: Option<RetryOptions>)

  const DefaultAttempts := 5
  const DefaultDelay := 4

  /** `invoke` exactly as written: an empty payload is not recognised, because the guard
      asks `Array.isArray` of a `Uint8Array`, which is never an array. */
  function InvokeAsWritten(mode: InvocationType, reply: Reply, decode: seq<bv8> -> Result<Json, string>): (r: Result<Option<Json>, string>)
    ensures reply.Raised? ==> r == Err(reply.error)
    ensures reply.Returned? && (mode == Event || reply.payload.None?) ==> r == Ok(None)
    ensures reply.Returned? && reply.payload.Some? && mode != Event ==>
      var decoded := decode(reply.payload.value);
      r == if decoded.Ok? then Ok(Some(decoded.value)) else Err(decoded.error)
  {
    match reply
    case Raised(e) => Err(e)
    case Returned(payload) =>
      if mode == Event then Ok(None)
      else match payload
        case None => Ok(None)
        case Some(bytes) =>
          match decode(bytes)
          case Ok(j) => Ok(Some(j))
          case Err(e) => Err(e)
  }

  /** `invoke` as intended: nothing comes back for a fire-and-forget call, nor for an
      absent or empty payload; otherwise the payload is decoded and parsed. A transport
      failure propagates. */
  function Invoke(mode: InvocationType, reply: Reply, decode: seq<bv8> -> Result<Json, string>): (r: Result<Option<Json>, string>)
    ensures reply.Raised? ==> r == Err(reply.error)
    ensures reply.Returned? && (mode == Event || reply.payload.None? || reply.payload == Some([])) ==>
      r == Ok(None)
    ensures r.Err? ==> reply.Raised? || decode(reply.payload.value) == Err(r.error)
    ensures r.Ok? && r.value.Some? ==>
      && mode != Event
      && reply.Returned? && reply.payload.Some? && reply.payload.value != []
      && decode(reply.payload.value) == Ok(r.value.value)
    ensures reply.Returned? && mode != Event && reply.payload.Some? && reply.payload.value != [] ==>
      var decoded := decode(reply.payload.value);
      r == if decoded.Ok? then Ok(Some(decoded.value)) else Err(decoded.error)
  {
    match reply
    case Raised(e) => Err(e)
    case Returned(payload) =>
      if mode == Event then Ok(None)
      else match payload
        case None => Ok(None)
        case Some(bytes) =>
          if bytes == [] then Ok(None)
          else match decode(bytes)
            case Ok(j) => Ok(Some(j))
            case Err(e) => Err(e)
  }

  /** The two agree on every reply but an empty payload in a call that waits for it;
      there, as written, the empty text reaches JSON.parse, which rejects it. */
  lemma EmptyPayloadDiscrepancy(mode: InvocationType, reply: Reply, decode: seq<bv8> -> Result<Json, string>)
    ensures reply != Returned(Some([])) || mode == Event ==>
      InvokeAsWritten(mode, reply, decode) == Invoke(mode, reply, decode)
    ensures reply == Returned(Some([])) && mode != Event && decode([]).Err? ==>
      InvokeAsWritten(mode, reply, decode).Err? && Invoke(mode, reply, decode) == Ok(None)
  {
  }

  /** `res?.body ?? 'null'`: the body text of the parsed response; the text "null" when
      there is no response object or it has no body. JSON.parse turns a body that is not
      a string into text first. */
  function BodyText(res: Option<Json>, coerce: Json -> string): (text: string)
    ensures (res.None? || !res.value.JObject? || "body" !in res.value.fields) ==> text == "null"
    ensures (res.Some? && res.value.JObject? && "body" in res.value.fields
             && res.value.fields["body"].JString?) ==> text == res.value.fields["body"].s
    ensures (res.Some? && res.value.JObject? && "body" in res.value.fields
             && res.value.fields["body"] == JNull) ==> text == "null"
    ensures (res.Some? && res.value.JObject? && "body" in res.value.fields
             && !res.value.fields["body"].JString? && res.value.fields["body"] != JNull) ==>
      text == coerce(res.value.fields["body"])
  {
    match res
    case Some(JObject(fields)) =>
      if "body" !in fields then "null"
      else (
        match fields["body"]
        case JNull => "null"
        case JString(s) => s
        case other => coerce(other))
    case _ => "null"
  }

  /** A JSON value as content of a tagged result; JSON null is the result's null. */
  function Nullable(j: Json): (c: Option<Answer>)
    ensures c.None? <==> j == JNull
    ensures c.Some? ==> c.value == Parsed(j)
  {
    if j == JNull then None else Some(Parsed(j))
  }

  /** One attempt of the gateway call (the closure passed to `attempt`): invoke, parse the
      body, camel-case its keys; any exception on the way is caught and reported as a
      failing result carrying it. */
  function AttemptOnce(reply: Reply, lib: Library): (r: Retry.Response<Answer>)
    ensures r.hasError <==> r.content.Some? && r.content.value.Exception?
    ensures reply.Raised? ==> r == Retry.Response(true, Some(Exception(reply.error)))
    ensures !r.hasError ==>
      var res := Invoke(RequestResponse, reply, lib.decode);
      && res.Ok?
      && lib.parse(BodyText(res.value, lib.coerce)).Ok?
      && r.content == Nullable(lib.camelize(lib.parse(BodyText(res.value, lib.coerce)).value))
    ensures var res := Invoke(RequestResponse, reply, lib.decode);
      && (res.Err? ==> r == Retry.Response(true, Some(Exception(res.error))))
      && (res.Ok? ==>
            var parsed := lib.parse(BodyText(res.value, lib.coerce));
            && (parsed.Err? ==> r == Retry.Response(true, Some(Exception(parsed.error))))
            && (parsed.Ok? ==> r == Retry.Response(false, Nullable(lib.camelize(parsed.value)))))
  {
    match Invoke(RequestResponse, reply, lib.decode)
    case Err(e) => Retry.Response(true, Some(Exception(e)))
    case Ok(res) =>
      match lib.parse(BodyText(res, lib.coerce))
      case Err(e) => Retry.Response(true, Some(Exception(e)))
      case Ok(j) => Retry.Response(false, Nullable(lib.camelize(j)))
  }

  /** The operation the retry loop calls: its k-th call sends `event` for the k-th time. */
  function Operation(transport: (Gateway.ApiGatewayEvent, nat) -> Reply, event: Gateway.ApiGatewayEvent, lib: Library): nat -> Retry.Response<Answer> {
    (k: nat) => AttemptOnce(transport(event, k), lib)
  }

  /** `const { attempts = 5, delay = 4 } = params.retry ?? {}` */
  function EffectiveRetry(retry: Option<RetryOptions>): (r: (int, int))
    ensures retry.None? ==> r == (DefaultAttempts, DefaultDelay)
    ensures retry.Some? ==>
      r == (retry.value.attempts.GetOr(DefaultAttempts), retry.value.delay.GetOr(DefaultDelay))
  {
    var options := retry.GetOr(RetryOptions(None, None));
    (options.attempts.GetOr(DefaultAttempts), options.delay.GetOr(DefaultDelay))
  }

  /** `apiGatewayInvoke`: build the event (a caller error is thrown before any call is
      made), then run the attempts with the retry options. */
  method ApiGatewayInvoke(params: InvokeParams, transport: (Gateway.ApiGatewayEvent, nat) -> Reply, lib: Library)
    returns (r: Result<Retry.Response<Answer>, Gateway.BuildError>, trace: seq<Retry.Effect<Answer>>)
    ensures var built := Gateway.MakeApiGatewayPayload(params.payload, lib.encoders);
      && (r.Err? <==> built.Err?)
      && (built.Err? ==> r == Err(built.error) && trace == [])
      && (built.Ok? ==>
            var (attempts, delay) := EffectiveRetry(params.retry);
            var op := Operation(transport, built.value, lib);
            && r == Ok(Retry.Outcome(op, attempts))
            && trace == Retry.Trace(op, attempts, delay)
            && Retry.Calls(trace) == Retry.Indices(Retry.CallCount(op, attempts)))
  {
    var (attempts, delay) := EffectiveRetry(params.retry);
    var payload := Gateway.MakeApiGatewayPayload(params.payload, lib.encoders);
    if payload.Err? {
      return Err(payload.error), [];
    }
    var res, t := Retry.Attempt(attempts, delay, Operation(transport, payload.value, lib));
    r, trace := Ok(res), t;
  }

  /** Binary content that is not a `Buffer` is rejected before the transport is used. */
  lemma BinaryWithoutBufferRejected(params: InvokeParams, enc: Gateway.Encoders)
    requires Gateway.BinaryFlag(params.payload)
    requires Gateway.ContentOf(params.payload).None? || Gateway.ContentOf(params.payload).value.Structured?
    ensures Gateway.MakeApiGatewayPayload(params.payload, enc) == Err(Gateway.BinaryContentNotBuffer)
  {
  }

  /** A first reply carrying a body that parses makes one call, no wait, and returns the
      camel-cased body as a success. */
  lemma FirstReplySucceeds(transport: (Gateway.ApiGatewayEvent, nat) -> Reply, event: Gateway.ApiGatewayEvent,
                           lib: Library, attempts: int, delay: int, bytes: seq<bv8>, response: map<string, Json>, body: string, parsed: Json)
    requires attempts >= 1
    requires transport(event, 0) == Returned(Some(bytes)) && bytes != []
    requires lib.decode(bytes) == Ok(JObject(response))
    requires "body" in response && response["body"] == JString(body)
    requires lib.parse(body) == Ok(parsed)
    ensures var op := Operation(transport, event, lib);
      && Retry.CallCount(op, attempts) == 1
      && Retry.Outcome(op, attempts) == Retry.Response(false, Nullable(lib.camelize(parsed)))
      && Retry.Sleeps(Retry.Trace(op, attempts, delay)) == []
  {
    var op := Operation(transport, event, lib);
    assert op(0) == Retry.Response(false, Nullable(lib.camelize(parsed)));
    Retry.FirstSuccessIsReturned(op, attempts, 0);
    Retry.TraceShape(op, attempts, delay);
  }

  /** A transport that always throws is tried `attempts` times, and the last exception
      comes back as a failing result. */
  lemma TransportAlwaysThrows(transport: (Gateway.ApiGatewayEvent, nat) -> Reply, event: Gateway.ApiGatewayEvent,
                              lib: Library, attempts: int)
    requires attempts >= 1
    requires forall k :: 0 <= k < attempts ==> transport(event, k).Raised?
    ensures var op := Operation(transport, event, lib);
      && Retry.CallCount(op, attempts) == attempts
      && Retry.Outcome(op, attempts) == Retry.Response(true, Some(Exception(transport(event, attempts - 1).error)))
  {
    var op := Operation(transport, event, lib);
    forall j | 0 <= j < attempts ensures op(j).hasError {
      assert op(j) == AttemptOnce(transport(event, j), lib);
    }
    Retry.AllFailuresUseEveryAttempt(op, attempts);
  }
}

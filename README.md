# invokew core, modelled in Dafny

`invokew` is a thin TypeScript client for invoking a serverless (AWS Lambda) function.
It can also dress a request up as an API-Gateway proxy event, so that a function written
for an HTTP trigger can be invoked directly. This project models the parts of it that
make decisions, and proves what they promise:

- **The retry loop** `LambdaFunction.attempt` (`Retry.Attempt`). It calls an operation at
  most `attempts` times and stops at the first success. After each failed call except the
  last it logs the failure, waits `delay` seconds and doubles `delay`. It returns the most
  recent result. The operation is an oracle `nat -> Response<T>`: the result of its k-th
  call. Logger calls and waits are recorded as a trace of `Effect`s. The method is
  imperative, like the source's `for` loop. Its contract ties the result and the trace to
  the specification functions `Outcome` and `Trace`. The lemmas then prove how many calls
  are made, which result comes back, that there is one wait fewer than there are calls,
  and that the j-th wait lasts `delay * 2^j`.
- **The event builder** `makeAPIGatewayPayload` (`Gateway.MakeApiGatewayPayload`). It is
  a pure function from optional request parameters to an event. It normalises the path,
  defaults the method to GET, builds a null, base64 or JSON body, and merges headers over
  a default `Content-Type`. It throws when binary content is announced but is not a
  `Buffer`; the model returns `Err` there.
- **`toStringHash`** (`Hash.ToStringHash`). It stringifies every value of a hash and drops
  the entries whose string is empty. The hash is a Dafny `map`.
- **`invoke`** (`Invoker.Invoke`) decides when the reply means "no content".
  **`apiGatewayInvoke`** (`Invoker.ApiGatewayInvoke`) applies the retry defaults (5
  attempts, 4 seconds), builds the event before any call, and wraps each call in the
  closure that turns exceptions into failing results.

Modules: `Wrappers` (Option, Result), `Decimal` (number-to-text formatting), `JsonData`
(JSON values), `Hash`, `Gateway`, `Retry`, `Invoker`.

Library transforms are taken as function-valued parameters: `JSON.stringify`, base64
(RFC 4648, section 4), `TextDecoder` with `JSON.parse`, `String()` coercion and
`humps.camelizeKeys`. The transport is an oracle from (event, attempt number) to a reply.

Where the code and its documented contract differ, the model follows the code, with one
exception: the empty-payload check in `invoke` (see "## Findings") is modelled both as
written and as intended, and the retry closure uses the intended version.

- With `isBinary` true and no content, the code throws, because `null` is not a `Buffer`.
  The documented contract says the body is then null and the flag false.
- Destructuring defaults replace only an undefined `attempts` or `delay`. `None` in
  `RetryOptions` stands for undefined.

## Model

| member | source | states |
|---|---|---|
| `Decimal.IntToText` | src/utils.ts:6 | the text of a number is never empty and starts with "-" exactly for negative numbers |
| `Decimal.NatToText` | src/utils.ts:6 | the text of a natural number is digits only, non-empty, with no leading zero |
| `Decimal.NatRoundTrip` | src/utils.ts:6 | reading the digits back gives the number formatted |
| `Decimal.IntRoundTrip` | src/utils.ts:6 | reading the text back gives the integer formatted |
| `Hash.Stringify` | src/utils.ts:6 | a number becomes its non-empty decimal text |
| `Hash.ToStringHash` | src/utils.ts:3-8 | output keys are input keys (none renamed); each output value is the non-empty stringification of that key's input value; every key whose stringification is non-empty is kept |
| `Hash.MissingDropped` | src/utils.ts:6-7 | a null or undefined value becomes '' and its key is dropped |
| `Hash.NumberKept` | src/utils.ts:6-7 | a numeric value is always kept, as its decimal text |
| `Hash.TextKeptIffNonEmpty` | src/utils.ts:6-7 | a string value is kept unchanged exactly when it is non-empty |
| `Hash.FixedPoint` | src/utils.ts:6-7 | a hash of non-empty strings passes through unchanged |
| `Hash.Idempotent` | src/utils.ts:3-8 | applying toStringHash to its own output changes nothing |
| `Gateway.NormalizePath` | src/index.ts:95-99 | the path starts with "/", is "/" for an absent resource, ends with the resource and is at most one character longer |
| `Gateway.PathShortest` | src/index.ts:95-99 | no shorter string starts with "/" and ends with the resource, so the path is uniquely determined |
| `Gateway.PathKept` | src/index.ts:97-98 | a resource starting with "/" is kept unchanged |
| `Gateway.PathPrefixed` | src/index.ts:99 | any other resource gets "/" in front |
| `Gateway.PathIdempotent` | src/index.ts:95-99 | normalising a normalised path changes nothing |
| `Gateway.ContentOf` | src/index.ts:102 | the content is null exactly when the body, or its content, is absent or JSON null; any other content is passed on unchanged |
| `Gateway.MergeHeaders` | src/index.ts:120 | Content-Type is always present; it is the caller's non-empty value or else "application/json"; every other header is present exactly when the caller gave it a non-empty value, and carries that stringified value; no header value is empty |
| `Gateway.MakeApiGatewayPayload` | src/index.ts:91-131 | throws exactly when isBinary is set and the content is not a Buffer; otherwise the event is well formed (path starts with "/" and equals pathParameters.proxy, one method in both places, fixed resource, stage variables and protocol), the method defaults to GET, isBase64Encoded is the flag (false when absent), the body is null exactly for null content, base64 for binary and JSON otherwise, and headers and query parameters are the stringified, filtered hashes |
| `Gateway.EmptyParamsDefaults` | src/index.ts:92-121 | with no parameters: GET on "/", null body, not base64, only the default Content-Type header |
| `Gateway.HeaderExample` | src/index.ts:120 | an empty header is dropped and a non-empty one survives beside the default Content-Type |
| `Retry.StopIndex` | src/index.ts:46-56 | from a pass before the last, the loop makes at least one and at most the remaining calls, stops only after the last allowed call or a success, and every call before the final one failed |
| `Retry.Attempt` | src/index.ts:39-68 | the loop's trace is `Trace` and its result is `Outcome`; the calls are numbered 0..n-1 in order; with attempts > 0 the waits are the first n-1 doubling delays |
| `Retry.IndicesAt` | src/index.ts:46 | the k-th call recorded has index k |
| `Retry.DelayAtPower` | src/index.ts:64 | after j doublings the delay is delay * 2^j |
| `Retry.DelaysAt` | src/index.ts:59-64 | the j-th wait of the doubling sequence is delay * 2^j |
| `Retry.RoundCallsAndSleeps` | src/index.ts:47-64 | one pass calls the operation once, and waits the current delay unless the loop stops after it |
| `Retry.PassesCalls` | src/index.ts:46-56 | the first k passes call the operation with indices 0..k-1, each once and in order |
| `Retry.PassesSleeps` | src/index.ts:53-64 | every pass before the stopping one waits once, with doubling delays; the stopping pass does not wait |
| `Retry.TraceShape` | src/index.ts:46-65 | the whole loop calls the operation n = CallCount times, and waits n-1 times with the doubling delays |
| `Retry.StopIndexAtFirstSuccess` | src/index.ts:54-56 | the loop stops right after the first successful call |
| `Retry.StopIndexAllFail` | src/index.ts:46-56 | when every call fails, the loop runs to the last allowed call |
| `Retry.AllFailuresUseEveryAttempt` | src/index.ts:46-56 | an always-failing operation is called exactly `attempts` times and its last failure is returned |
| `Retry.FirstSuccessIsReturned` | src/index.ts:51-56 | an operation first succeeding on call k is called exactly k+1 times and that success is returned |
| `Retry.OutcomeMeaning` | src/index.ts:44-67 | a failing outcome means every allowed call failed; a successful one is the first success |
| `Retry.NoAttempts` | src/index.ts:44-67 | with attempts <= 0 nothing happens and `{hasError: false, content: null}` is returned |
| `Retry.SleepsOneFewer` | src/index.ts:53-61 | there is exactly one wait fewer than there are calls |
| `Retry.SleepDurations` | src/index.ts:59-64 | the j-th wait lasts delay * 2^j |
| `Retry.TraceEndsWithCall` | src/index.ts:53-56 | the trace ends with the last call: no wait and no log follow it |
| `Retry.ThreeFailuresWaitFourThenEight` | src/index.ts:46-64 | three failures with delay 4 make calls 0, 1, 2 and wait 4 then 8 seconds |
| `Invoker.InvokeAsWritten` | src/index.ts:70-89 | as written: a transport failure propagates; a fire-and-forget call or an absent payload gives null; any other payload, empty or not, is decoded and the decoded value or the decoding error is the result |
| `Invoker.Invoke` | src/index.ts:70-89 | a transport failure propagates; a fire-and-forget call, an absent payload or an empty payload give null; a non-empty payload of a waited-for call gives its decoded value or the decoding error; any value returned is such a decoding |
| `Invoker.EmptyPayloadDiscrepancy` | src/index.ts:84-88 | the two agree except on an empty waited-for payload, where as written the parse error surfaces and as intended null is returned |
| `Invoker.BodyText` | src/index.ts:143 | no response object, no body or a JSON-null body gives the text "null"; a string body is passed as is; any other body is the text JSON.parse would coerce it to |
| `Invoker.AttemptOnce` | src/index.ts:137-151 | a result is an error exactly when it carries a caught exception; a transport, decoding or parse error is carried as is in a failing result; when nothing throws the result is a success carrying the camel-cased parse of the response body, null for a JSON-null parse |
| `Invoker.EffectiveRetry` | src/index.ts:134 | attempts default to 5 and delay to 4 when absent; given values are kept |
| `Invoker.ApiGatewayInvoke` | src/index.ts:133-152 | a rejected event is thrown before any call (empty trace); otherwise the result and trace are those of the retry loop over the same event, with the effective retry options |
| `Invoker.BinaryWithoutBufferRejected` | src/index.ts:104-106 | binary content that is not a Buffer is rejected |
| `Invoker.FirstReplySucceeds` | src/index.ts:137-144 | a first reply whose body parses gives one call, no wait and the camel-cased body as a success |
| `Invoker.TransportAlwaysThrows` | src/index.ts:145-150 | a transport that always throws is called `attempts` times and the last exception comes back as a failing result |

## Findings

| source | as written | input that shows it | evidently intended | confidence | as-written member | corrected member |
|---|---|---|---|---|---|---|
| src/index.ts:84-88 | the empty-payload guard asks `Array.isArray(response.Payload)`, which is false for the SDK's `Uint8Array` payload, so an empty payload goes on to `JSON.parse('')`, which throws | a `RequestResponse` call whose reply carries an empty `Payload` byte array | an empty payload gives null, like an absent one | medium: rests on the SDK's payload type, which is not part of this model; not executed | `Invoker.InvokeAsWritten`, `Invoker.EmptyPayloadDiscrepancy` | `Invoker.Invoke` |

The rest of the model (`Invoker.AttemptOnce` and everything built on it) uses the
corrected `Invoker.Invoke`.

## Left out

- The AWS SDK `Lambda` client, its construction from a region, and `Object.assign` of the constructor parameters: the transport is an oracle. The function name and `LogType: 'None'` sent with each request are not modelled.
- `JSON.stringify` of the request event into the transport's payload bytes: the oracle receives the event itself.
- Real-time waiting (`setTimeout`) and the promise machinery: each wait is a `Sleep` effect with its duration in seconds.
- The logger `@ubverse/slw`: its calls are `Info` and `Error` effects. The error's context `res.content ?? {}` is kept as an `Option`, with `None` standing for `{}`.
- `JSON.stringify`, `JSON.parse`, `TextDecoder`, base64 encoding, `String()` coercion and `humps.camelizeKeys`: taken as functions the caller supplies. Their own behaviour, such as `JSON.parse('')` throwing, is not modelled.
- Numbers are integers. Fractions, `NaN`, infinities and the exponent form that `toString` uses from 1e21 on are not modelled. A fractional `attempts` would change the loop's stopping test; it is not modelled.
- `Retry.Attempt`: a negative delay is recorded as given. `setTimeout` treats it as zero; that is not modelled.
- An explicit `null` for `attempts` or `delay` is not modelled: destructuring defaults ignore null.
- Key order in hashes (`Object.fromEntries`, `Object.assign`): Dafny maps are unordered.
- Exceptions thrown by the library transforms themselves, such as `camelizeKeys`, other than the parse errors the model carries as `Err`.
- Invoker.AttemptOnce: built on the corrected `Invoker.Invoke`, so an empty reply payload is a success carrying null. As written, that payload makes `JSON.parse('')` throw. Each attempt then fails, and all attempts and waits are used up. The model does not follow the as-written behaviour here.
- src/types.ts: type declarations only, reflected in the datatypes.

# Typed HTTP request helper, modelled in Dafny

The helper in `src/request-builder.ts` turns a path template such as
`/sites/:siteId` into a typed request function. This project models that
pipeline and proves properties of it:

- which parameter names a template asks for (`ParamsFromPath`);
- how parameter values are interpolated into the template (`interpolate`);
- the generic request a call builds (`createRequest`): the URL, the fixed method, the JSON
  content-type header and the serialized body;
- the pure part of the fetch adapter (`createFetchAdapter`): the base URL
  `protocol://host[:port]`, the outgoing headers that replace the caller's, and
  how a transport outcome becomes `Ok` or `Failure`;
- decode-or-fail (`decodeOrThrow`) and the request codec
  (`requestCodecFactory`), which rejects on a `Failure` and decodes an `Ok`.

The code has two modules:

- `JsText` (`js_text.dfy`) holds the JavaScript string primitives the code is
  written against. These are `indexOf`, `replace` with a string pattern
  (including its `$` replacement patterns), `join`, and `toString` on integral
  numbers. The module also holds their partners: `split` and an integer
  parser.
- `RequestBuilder` (`request_builder.dfy`) models the helper.

It is written as datatypes, functions and lemmas, because the source is
written that way too. The source has no mutable state and no loops.

Foreign code enters as function parameters:

- `JSON.stringify` is `serialize`;
- the io-ts decoder is `resDecoder`;
- the io-ts reporter is `report`;
- `node-fetch` together with `response.json()` is a `transport` function.

`transport` gives a `TransportOutcome`: a response with status, status text
and body read, or a thrown error. A rejected promise or a thrown `Error` is
the `Rejected` outcome of an `Outcome`. The codec's adapter returns an
`Outcome` of a response, so an adapter that rejects is covered; the fetch
adapter itself always resolves.

Two reference definitions act as independent partners:

- `MarkerNames` reads a template one character at a time. `ParamsFromPath`
  follows the recursive shape of the TypeScript type instead.
- A segment form of templates (`head` plus `Markers(parts)`) builds a
  template from its names and static tails. It is used to state what
  interpolation fills in. `Rendered` is the same template part way through,
  with some parts filled, so that entries can be applied in any order.

Where the source's behaviour is surprising, the model keeps it:

- A value holding `$&` is expanded by `replace`.
- `:id` also matches the start of `:idx`.
- A missing parameter leaves its marker verbatim.
- When one name is a prefix of another, the order of the entries matters.
- The adapter discards the caller's headers.

## Model

| member | source | states |
|---|---|---|
| `JsText.IndexOf` | src/request-builder.ts:61-62 | the result is the least index at which the pattern occurs, or none exactly when it occurs nowhere |
| `JsText.ReplaceFirst` | src/request-builder.ts:61-64 | a string in which the pattern does not occur is returned unchanged |
| `JsText.ReplaceFirstAt` | src/request-builder.ts:61-64 | with the first occurrence at `i` and no `$` in the replacement, exactly that occurrence is replaced and the rest is kept |
| `JsText.Substitution` | src/request-builder.ts:61-64 | a replacement text without `$` is inserted verbatim |
| `JsText.ReplaceFirstAfter` | src/request-builder.ts:61-64 | when the pattern starts nowhere inside a prefix, replacing in the whole text keeps the prefix and replaces in the rest |
| `JsText.ReplaceWithMatch` | src/request-builder.ts:61-64 | the replacement `$&` puts the matched text back, so the string is unchanged |
| `JsText.Join` | src/request-builder.ts:15 | the joined text is as long as the lines together plus one separator between each two |
| `JsText.SplitJoin` | src/request-builder.ts:15 | splitting lines joined by a separator that none of them holds gives the lines back |
| `JsText.JoinSplit` | src/request-builder.ts:15 | joining the pieces of a split with the separator gives the text back |
| `JsText.NatToDecimal` | src/request-builder.ts:63 | decimal text is non-empty, all digits, and has no leading zero |
| `JsText.NumberToString` | src/request-builder.ts:63 | the text of a number is non-empty and made of digits with at most a leading minus sign |
| `JsText.NumberToStringRoundTrip` | src/request-builder.ts:63 | the printed integer reads back as itself, so different numbers print differently |
| `RequestBuilder.ParamsFromPath` | src/request-builder.ts:38-44 | no derived parameter name contains `/` |
| `RequestBuilder.ParamsAreMarkerNames` | src/request-builder.ts:38-44 | the names the type-level recursion derives are exactly the names after each `/:`, in left-to-right order, each ending at the next `/` or at the end |
| `RequestBuilder.NoMarkerNoParams` | src/request-builder.ts:42-44 | a template asks for no parameters exactly when it contains no `/:` |
| `RequestBuilder.ParamsOfTemplate` | src/request-builder.ts:38-44 | a well-formed template built from parts asks for exactly the parts' names, in order |
| `RequestBuilder.Interpolate` | src/request-builder.ts:55-67 | entries whose `:name` does not occur in the template change nothing, so no entries give the template back; with `InterpolateConcat`, `InterpolateRoundTrip` and `InterpolateAnyOrder` it is the fold that fills each marker with its own value |
| `RequestBuilder.ValueText` | src/request-builder.ts:63 | a string value is inserted as itself, and the text of a number reads back as that number |
| `RequestBuilder.InterpolateConcat` | src/request-builder.ts:59-66 | the reduce over two runs of entries is the reduce over the first, then the second |
| `RequestBuilder.NumberTextIsInert` | src/request-builder.ts:63 | the text of a number holds neither `:` nor `$` |
| `RequestBuilder.InterpolateRoundTrip` | src/request-builder.ts:55-67 | for a well-formed template and inert values bound in order, the template asks for exactly its names and interpolation fills every marker with its value's text |
| `RequestBuilder.InterpolateAnyOrder` | src/request-builder.ts:55-67 | for a well-formed template whose names hold no `:` and are not prefixes of each other, entries with inert values in any order fill every marker with its own value |
| `RequestBuilder.FillAnyMarker` | src/request-builder.ts:59-66 | with such names, the entry for any still unfilled part replaces exactly that part's marker, whichever other parts are filled |
| `RequestBuilder.EntryOrderMatters` | src/request-builder.ts:59-66 | with names `idx` and `id`, entry order changes the result: `id` first gives `/Ax/:id`, template order gives `/B/A` |
| `RequestBuilder.MissingParamsStayVerbatim` | src/request-builder.ts:55-67 | binding only the first parameters fills those markers and leaves the later `/:name` text verbatim |
| `RequestBuilder.OmittedParamsKeepMarkers` | src/request-builder.ts:55-67 | with distinguishable names, entries for any subset of the parameters in any order fill exactly the parts listed, and every other part keeps its `/:name` text wherever it stands |
| `RequestBuilder.SingleParam` | src/request-builder.ts:55-67 | a template ending in one marker asks for that name, and its value's text replaces `:name` after the last `/` |
| `RequestBuilder.NamePrefixCaptured` | src/request-builder.ts:61-64 | the first `:name` is replaced even when it only starts a longer marker, and the text after it stays |
| `RequestBuilder.DollarPatternScenario` | src/request-builder.ts:61-64 | the value `$&` for `p` leaves `/a/:p` unchanged |
| `RequestBuilder.SitesTemplateScenario` | src/request-builder.ts:169-170 | `/sites/:siteId` asks for `siteId`, and `siteId: 5` gives `/sites/5` |
| `RequestBuilder.TestRouteScenario` | __tests__/integration-test.ts:31-38 | `/test/:hello` asks for `hello`, and `hello: 'world'` gives `/test/world` |
| `RequestBuilder.CreateRequest` | src/request-builder.ts:73-94 | the request's URL is the template interpolated with the parameters, and it carries the one header `Content-Type: application/json`, the given method and the serialized body |
| `RequestBuilder.CreateRequestFillsTemplate` | src/request-builder.ts:81-93 | for a well-formed template and inert values, the request URL is the template with every marker filled, and the init is exactly header, body and method |
| `RequestBuilder.EffectiveProtocol` | src/request-builder.ts:120 | the configured protocol when one is given, `http` otherwise |
| `RequestBuilder.BaseUrl` | src/request-builder.ts:120-122 | the base URL starts with `protocol://host`; after that comes nothing when no port is given, and otherwise a `:` and text that reads back as the port |
| `RequestBuilder.BaseUrlRoundTrip` | src/request-builder.ts:120-122 | the base URL can be read back into the protocol actually used, the host and the port, if any |
| `RequestBuilder.DefaultProtocolIsHttp` | src/request-builder.ts:120 | leaving the protocol out gives the same base URL as `http`, and it starts with `http://` followed by the host |
| `RequestBuilder.LocalhostBaseUrl` | __tests__/integration-test.ts:23-28 | host `localhost` with port 3333 and no protocol gives `http://localhost:3333` |
| `RequestBuilder.LocalhostTestUrl` | src/request-builder.ts:125-129 | the adapter for `localhost:3333` hands the request built for `POST /test/:hello` with `hello: 'world'` to the transport at `http://localhost:3333/test/world`, with the outgoing init |
| `RequestBuilder.OutgoingInit` | src/request-builder.ts:126-129 | the sent init keeps the method and body and has the one header `Content-type: application/json` |
| `RequestBuilder.IsOkStatus` | src/request-builder.ts:130 | a status is ok exactly when it is in the 2xx class |
| `RequestBuilder.Classify` | src/request-builder.ts:124-142 | `Ok` exactly for an ok status with a readable body, and it carries that body; a non-ok response is a `Failure` with its status and status text; anything thrown is a `Failure` with code 500 |
| `RequestBuilder.FailureCodeIsNotOk` | src/request-builder.ts:130-141 | a `Failure` never carries an ok status; a code other than 500 is the response's status |
| `RequestBuilder.NonOkIgnoresBody` | src/request-builder.ts:133-139 | the body of a non-ok response makes no difference |
| `RequestBuilder.FetchAdapter` | src/request-builder.ts:117-144 | the adapter never reports a `Failure` with an ok status |
| `RequestBuilder.AdapterIgnoresCallerHeaders` | src/request-builder.ts:126-129 | requests differing only in their headers get the same response |
| `RequestBuilder.DecodeOrThrow` | src/request-builder.ts:7-20 | resolves exactly when the decoder gives `Right`, with the decoded value; otherwise rejects with the reporter's lines joined by newlines |
| `RequestBuilder.ValidationMessageLines` | src/request-builder.ts:15 | with `k` reporter lines free of newlines, the message splits into exactly those `k` lines |
| `RequestBuilder.FailureMessage` | src/request-builder.ts:160-162 | the failure message determines the code and the explanation, which read back out of it |
| `RequestBuilder.RequestCodec.Request` | src/request-builder.ts:157 | the request a call sends has the template interpolated with the call's parameters, the codec's method, the JSON content-type header and the serialized body |
| `RequestBuilder.RequestCodec.Call` | src/request-builder.ts:153-165 | a resolved call means the adapter answered `Ok` and the decoder accepted its body with that value; an adapter rejection rejects the call with the same message; an adapter `Failure` always rejects |
| `RequestBuilder.FailureShortCircuits` | src/request-builder.ts:157-163 | a `Failure` rejects with the message built from its code and explanation, which read back, and the decoder is never used |
| `RequestBuilder.OkIsDecoded` | src/request-builder.ts:164 | on `Ok` the call ends as decode-or-fail ends on the body |
| `RequestBuilder.IntegrationScenario` | __tests__/integration-test.ts:21-41 | the test's codec sends `POST` to `http://localhost:3333/test/world` with the JSON content type, and on an ok answer with an accepted body it resolves to the decoded value |
| `RequestBuilder.NotFoundScenario` | src/request-builder.ts:159-163 | an adapter resolving to `Failure(404, "Not Found")` rejects the call with `Failed to execute request 404, Not Found` |

## Left out

- Asynchrony is not modelled. The promises, `await` and the network call are
  collapsed into one function application. `node-fetch` and
  `response.json()` become the `transport` parameter, which returns what the
  call did.
- `JSON.stringify` is not modelled. It becomes the `serialize` parameter.
  Its `undefined` result and its throwing on cyclic values are not
  modelled.
- The io-ts decoder and `io-ts-reporters` are not modelled. They are the
  `resDecoder` and `report` parameters. What each error line says is not
  modelled.
- The caught `error` is modelled as a string explanation. The source stores
  the `Error` object itself in `explanation`.
- `Object.entries` order is taken as the order of the given entries. The
  JavaScript rule that integer-like keys come first is not modelled.
- Path values that are numbers are modelled as integers. Fractions, the
  exponent form from 1e21 on, `NaN`, `Infinity` and `-0` are not modelled.
- Port numbers are modelled as integers, with the same limits.
- `ParamsFromPath`: the model derives an ordered list of names and does not
  deduplicate repeated names. The TypeScript type is an intersection of
  records, in which a repeated name merges.
- TypeScript's compile-time check that the parameters match the template is
  not modelled. The model states which names a template asks for; it does
  not reject calls with missing or extra entries, because the compiled code
  does not.
- The curried stages of `createRequest` and `requestCodecFactory` are
  flattened into one function, or into one codec value, per call.
- The sample declarations (`SampleBody`, `resC`, `Abc`) are not modelled.
  They are types and constant values with no behaviour beyond the scenario
  above.
- `test-support/mock-server.ts` is not part of this model.
- `ParseBaseUrl` and `ParseFailureMessage` are partners used to state that
  nothing is lost. They are not in the source.
- `InterpolateRoundTrip` holds only for entries in template order and for
  values without `:` or `$`. `InterpolateAnyOrder` lifts the order
  restriction when no name holds `:` or is a prefix of another;
  `EntryOrderMatters` shows that order matters otherwise. Values holding `:`
  or `$` are not covered by either: such a value can create a marker for a
  later entry or is expanded by `replace`.
- `BaseUrlRoundTrip` requires a host without `:`. A host that contains `:`
  cannot be told apart from a port.

Where the code's behaviour differs from what the template syntax suggests,
the model follows the code:

- Marker names are whatever the type-level match captures between `/:` and
  the next `/`. This includes empty names and names with any characters.
  Malformed markers are not treated as static text.
- `createRequest` sets `Content-Type`, and the adapter replaces all headers
  with `Content-type`. Both spellings are modelled as written.
- A parameter value containing `$&`, `` $` ``, `$'` or `$$` is expanded by
  `replace`, so interpolation does not insert such values verbatim.

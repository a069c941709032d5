# aws-api-gateway-deploy: the request-dispatch core, in Dafny

The repository deploys a Go AWS Lambda behind API Gateway. Its core is the
`Front` object. `Front.Handler` takes an API Gateway proxy request. It forms
the route, which is the HTTP method followed by the resource path. It sends
the request to the handler for that route: `GET/status`, `GET/calc/{op}`, or
the unknown-route handler. It then wraps the handler's data or `ApiError`
into a response. The response body is JSON, and every response carries the
`Cache-Control`, `Access-Control-Allow-Origin` and `X-Timestamp` headers. If
the handler panics, a deferred `recover` replaces the response with a 500.
The model also covers the error type of `pkg/models` and the utilities of
`pkg/utils`: `Slug`, `JsonStringify` and `JsonStack`.

Modules, one per source unit:

- `Wrappers`: `Option` and `Result`.
- `Events`: the proxy request and response records, the HTTP status codes
  used, and Go's two ways of reading a map (comma-ok, and the zero value for
  a missing key).
- `Models` (`pkg/models/apiError.go`): `ApiErrorBody`, the `errBody`
  implementation of `ApiError`, `ConstructApiError`, `ErrorWrap`, and the
  `Status` and `CalculationResult` records.
- `Strconv`: `strconv.Itoa`, with a reader that proves it loses nothing.
- `Utils` (`pkg/utils/utils.go`): `Slug`, `JsonStringify` and `JsonStack`.
- `FrontHandlers` (`api/front/front_handlers.go`): the status and
  calculator handlers, and `getFloatFromRequest`.
- `Front` (`api/front/front.go`): routing, `buildResponse`, and `Handler`
  with its recover barrier.

The source's step-by-step functions are methods, each proved equal to a
specification function. These are `buildResponse`, `calcHandler`,
`getFloatFromRequest` and `Handler`. Their properties are stated on the
specification functions (`Envelope`, `CalcOutcome`, `FloatParam`, `Barrier`)
and in lemmas about them. The rest is pure and is written as functions and
lemmas.

Foreign code is passed in as parameters:

- `encoding/json` is a marshaller function that returns `None` when
  marshalling fails. A successful result is never empty, since every JSON
  document has at least one character. A handler may return any Go value;
  values other than the status and a calculation are opaque (`OtherData`)
  and known only to the marshaller.
- float64 arithmetic, `math.Pow` and `strconv.ParseFloat` are fields of
  `FloatOps` over an uninterpreted number type `Num`.
- The current time is a `timestamp` string parameter.
- A recovered panic value is given with its `%v` rendering.

Where the repository's tests disagree with the code, the model follows the
code:

- An unknown route answers 404 (`http.StatusNotFound`), not the 400 that
  `front_test.go` expects.
- An unknown calculator operation is reported as `Unknown operation <op>`,
  not `Unknown calc operation: <op>`.
- The calculator reads the `locale` header, defaulting to `undefined`, not
  `Accept-Language`. It stores the raw float result, without formatting it
  for the locale.
- No result is checked against limits. An infinite or NaN result cannot be
  marshalled, so it answers 500 "Unmarshallable data" (`CalcRouteResponse`).
- The "Unmarshallable data" fallback replaces the body whenever the chosen
  body is empty, so it covers a failing error body as well as failing data.
- The recover barrier builds a new 500 error from the panic value's `%v`
  text. It does not wrap the panic value as an error.
- `op[0:3]` slices bytes. An operation shorter than three UTF-8 bytes makes
  the calculator panic, and the barrier turns that into a 500 carrying the
  runtime error's text (`CalcShortOperationResponse`).

## Model

| member | source | states |
|---|---|---|
| Events.Lookup | api/front/front_handlers.go:82-84 | the comma-ok map read: found exactly when the key is present, and then it gives that key's value |
| Events.IndexOrZero | api/front/front_handlers.go:19 | indexing a map gives the key's value, or the empty string when the key is missing |
| Models.ApiError.ErrorBody | pkg/models/apiError.go:23-33 | the body view of an error always agrees with its `Error()` message and its `StatusCode()` |
| Models.ConstructApiError | pkg/models/apiError.go:35-43 | the constructed error reports exactly the given code and message |
| Models.ErrorWrap | pkg/models/apiError.go:45-59 | an `ApiError` passes through unchanged; any other error becomes a 500; the message is always the wrapped error's message |
| Models.WrapConstructed | pkg/models/apiError.go:45-51 | wrapping an error made by ConstructApiError keeps its code and message |
| Models.ErrorWrapIdempotent | pkg/models/apiError.go:45-59 | wrapping an already wrapped error changes nothing |
| Strconv.Itoa | api/front/front.go:125 | a non-empty decimal rendering that starts with '-' exactly for negative numbers, followed only by digits |
| Strconv.ItoaRoundTrip | api/front/front.go:125 | reading Itoa's output back as a decimal integer gives the original number |
| Strconv.ItoaInjective | api/front/front.go:125 | distinct max-age values never give the same Cache-Control text |
| Utils.ToLowerChar | pkg/utils/utils.go:14 | a lowered character is never an ASCII capital; it is in `[a-z0-9]` exactly when the original is, or is an ASCII capital, the Kelvin sign or capital dotted I; `[a-z0-9-]` is left alone |
| Utils.ToLowerCharIdempotent | pkg/utils/utils.go:14 | lowering a lowered character changes nothing |
| Utils.ToLower | pkg/utils/utils.go:14 | lower-casing keeps the length, works character by character, leaves no ASCII capital, and leaves a string of `[a-z0-9-]` unchanged |
| Utils.ToLowerIdempotent | pkg/utils/utils.go:14 | lower-casing twice is lower-casing once |
| Utils.DropNonSlugSpec | pkg/utils/utils.go:10 | a leading run of characters outside `[a-z0-9]` is consumed whole: what is left is empty or starts with a slug character, and it is a suffix of the input |
| Utils.TrimLeftSpec | pkg/utils/utils.go:14 | trimming removes the longest prefix made only of hyphens: what is left is a suffix that is empty or does not start with '-' |
| Utils.TrimRightSpec | pkg/utils/utils.go:14 | trimming removes the longest suffix made only of hyphens: what is left is a prefix that is empty or does not end with '-' |
| Utils.ReplaceRuns | pkg/utils/utils.go:10-14 | replacing runs never lengthens a string, and gives the empty string only for the empty string |
| Utils.ReplaceRunsShape | pkg/utils/utils.go:10-14 | after replacing every maximal run of non-`[a-z0-9]` characters with one hyphen, only `[a-z0-9-]` remains and no two hyphens are adjacent |
| Utils.ReplaceRunsKeepsSlugChars | pkg/utils/utils.go:10-14 | that replacement keeps every `[a-z0-9]` character, in order |
| Utils.Trim | pkg/utils/utils.go:14 | the result is the piece of the input that starts right after its leading hyphens, everything cut off before and after it is a hyphen, and the piece has no hyphen at either end |
| Utils.ReplaceRunsTrimWellFormed | pkg/utils/utils.go:10-14 | replacing runs and trimming any string gives only `[a-z0-9-]`, with no edge hyphen and no two hyphens in a row |
| Utils.ReplaceRunsTrimKeepsSlugChars | pkg/utils/utils.go:10-14 | without its hyphens, that result is exactly the `[a-z0-9]` characters of the string, in order |
| Utils.Slug | pkg/utils/utils.go:12-15 | a slug contains only `[a-z0-9-]`, never starts or ends with '-', never has two hyphens in a row, and without its hyphens is exactly the `[a-z0-9]` characters of the lower-cased input, in order (where the hyphens go: `Utils.SlugOfAnyString`) |
| Utils.SlugIdempotent | pkg/utils/utils.go:12-15 | slugging a slug gives it back unchanged |
| Utils.ReplaceRunsInterleaved | pkg/utils/utils.go:10 | words of `[a-z0-9]` characters separated by non-empty runs of other characters become the words joined by single hyphens, with a hyphen at an end exactly when the string has a run of other characters there |
| Utils.SlugOfInterleaved | pkg/utils/utils.go:10-14 | replacing runs and trimming such a string, with or without runs of other characters at its ends, gives its words joined by single hyphens |
| Utils.SlugOfLoweredInterleaved | pkg/utils/utils.go:12-15 | a string whose lower-cased form is such an interleaving slugs to its words joined by single hyphens |
| Utils.Decompose | pkg/utils/utils.go:10 | every string with an `[a-z0-9]` character is such an interleaving of its maximal `[a-z0-9]` runs with the runs of other characters around them |
| Utils.SlugOfAnyString | pkg/utils/utils.go:12-15 | the slug of any string with an `[a-z0-9]` character after lower-casing is its maximal `[a-z0-9]` runs, lower-cased, joined by single hyphens |
| Utils.SlugWithoutSlugChars | pkg/utils/utils.go:12-15 | a string with no `[a-z0-9]` character after lower-casing slugs to the empty string |
| Utils.SlugExample | pkg/utils/utils_test.go:10-12 | `" This    is a- 'test?"` slugs to `"this-is-a-test"` |
| Utils.JsonStringify | pkg/utils/utils.go:17-27 | the result is empty exactly when marshalling fails, and is the marshalled JSON otherwise |
| Utils.RemoveTabs | pkg/utils/utils.go:38 | the result is shorter than the input by exactly its number of tabs |
| Utils.RemoveTabsSpec | pkg/utils/utils.go:38 | removing tabs leaves no tab, adds no character, and keeps the number of occurrences of every other character |
| Utils.RemoveTabsOfConcat | pkg/utils/utils.go:38 | removing tabs from two joined pieces is removing them from each piece, so what is kept stays in order |
| Utils.RemoveTabsWithoutTabs | pkg/utils/utils.go:38 | a string without tabs is left unchanged |
| Utils.Split | pkg/utils/utils.go:40 | splitting always yields at least one piece |
| Utils.SplitSpec | pkg/utils/utils.go:40 | splitting yields one more piece than there are separators, and no piece contains a separator or a character not in the input |
| Utils.SplitJoin | pkg/utils/utils.go:40 | joining the pieces with the separator gives the input back |
| Utils.StackTrace | pkg/utils/utils.go:32-48 | the panic message is kept when it is a string and is "Unprintable" otherwise; the stack lines hold no tab or newline, there is one more line than newlines in the tab-free trace, and joining them gives that trace back |
| Utils.StackTraceOfIndentedLines | pkg/utils/utils_test.go:49-66 | a trace of four lines, each after the first indented by a tab, gives exactly those four lines |
| Utils.JsonStack | pkg/utils/utils.go:29-57 | the JSON of the trace data, or `Panic:<msg>: <trace>` when that cannot be marshalled |
| FrontHandlers.StatusHandler | api/front/front_handlers.go:12-15 | the status route returns the configured status and no error |
| FrontHandlers.Utf8Length | api/front/front_handlers.go:46 | a Go string's byte length is between one and four bytes per character, and one per character for ASCII |
| FrontHandlers.OperationOf | api/front/front_handlers.go:46-75 | an operation is selected exactly when the first three characters are one of add, sub, mul, div, pow, roo |
| FrontHandlers.OperationOfPrefix | api/front/front_handlers.go:46 | characters after the third never affect the choice of operation |
| FrontHandlers.Apply | api/front/front_handlers.go:48-70 | add, sub, mul, div and pow apply their float operation to val1 and val2; a root raises val1 to the power 1/val2 |
| FrontHandlers.CalcResultByPrefix | api/front/front_handlers.go:46-75 | with both numbers read, each of the six prefixes gives a success whose result is its own arithmetic on val1 and val2, and any other prefix gives 400 `Unknown operation <op>` |
| FrontHandlers.SliceBoundsPanic | api/front/front_handlers.go:46 | the panic from slicing a too-short operation is a runtime error, not a string |
| FrontHandlers.FloatParam | api/front/front_handlers.go:80-92 | a missing query parameter gives `Missing parameter <key>`; a present one gives ParseFloat's result |
| FrontHandlers.GetFloatFromRequest | api/front/front_handlers.go:80-92 | reports an error exactly when FloatParam fails, with the same message, and otherwise returns the parsed number |
| FrontHandlers.LocaleOf | api/front/front_handlers.go:33-37 | the `locale` header when present, otherwise "undefined" |
| FrontHandlers.CalcOutcome | api/front/front_handlers.go:17-78 | val1 errors are reported first as 400, then val2 errors; with both numbers read, a short operation panics, an unknown one is a 400 `Unknown operation <op>`, and a known one succeeds; a success echoes locale, op, val1 and val2 with the applied operation's result |
| FrontHandlers.CalcMissingParameter | api/front/front_handlers.go:21-31 | without val1 the answer is 400 `Missing parameter val1`, whatever else is given; with a readable val1 but no val2 it is 400 `Missing parameter val2` |
| FrontHandlers.CalcHandler | api/front/front_handlers.go:17-78 | the step-by-step handler returns exactly CalcOutcome |
| Front.NewFront | api/front/front.go:31-41 | the new Front holds the given status and cache max-age |
| Front.GetRoute | api/front/front.go:81-84 | the route is the HTTP method followed by the resource path, with nothing in between |
| Front.GetHandlerForRoute | api/front/front.go:66-79 | `GET/status` picks the status handler and `GET/calc/{op}` picks the calculator, exactly; every other route picks the unknown-route handler |
| Front.UnknownRouteHandler | api/front/front.go:86-89 | no data and a 404 whose message is `No such route as <route>` |
| Front.Routed | api/front/front.go:58-61 | the registered routes run their own handlers; every other route gets a 404; only the calculator route can panic, and only the two registered routes can succeed |
| Front.SeoString | api/front/front.go:91-93 | the result is a well-formed slug holding the input's lower-cased `[a-z0-9]` characters, in order |
| Front.SeoStringWords | api/front/front.go:91-93 | the route name of a string is empty when the lower-cased string has no `[a-z0-9]` character, and otherwise its maximal `[a-z0-9]` runs joined by single hyphens |
| Front.ResponseHeaders | api/front/front.go:121-128 | exactly the three headers, with `max-age=<n>`, `*` and the timestamp |
| Front.Envelope | api/front/front.go:95-129 | an error gives its own status and marshalled body; otherwise 200 and the marshalled data; if that marshalling fails, 500 and the fixed Unmarshallable-data body; the body is never empty and the headers are always the three |
| Front.BuildResponse | api/front/front.go:95-129 | the step-by-step builder returns exactly Envelope |
| Front.Barrier | api/front/front.go:46-64 | a handler's results go through Envelope; after a panic the response is a 500 whose body is the marshalled error carrying the panic's text |
| Front.Handler | api/front/front.go:46-64 | never returns an error, and its response is the Barrier of the routed handler's outcome |
| Front.ResponseHeadersAlways | api/front/front.go:121-128 | every response, panic or not, has the three headers, and the Cache-Control max-age reads back as the configured number |
| Front.StatusRouteResponse | api/front/front.go:61-71 | GET/status answers 200 with the marshalled status |
| Front.UnknownRouteResponse | api/front/front.go:86-89 | any other route than the two registered ones answers 404 with the marshalled `No such route as <route>` error |
| Front.CalcRouteResponse | api/front/front.go:108-119 | a successful calculation answers 200 with the marshalled result, or 500 Unmarshallable data when the result cannot be marshalled |
| Front.CalcShortOperationResponse | api/front/front.go:48-54 | an operation shorter than three bytes answers 500 with the slice-bounds runtime error as message |

## Left out

- Logging (`log.Println`, `log.Printf`) and the trace logged by the recover
  barrier: they do not affect the response. `JsonStack` is modelled on its
  own, but its call at front.go:51 is not.
- `runtime/debug.Stack` is not modelled; `JsonStack` takes the raw trace as a
  parameter.
- `time.Now().UTC().Format(time.RFC3339Nano)` is not modelled; the formatted
  timestamp is a parameter.
- The `router` field of `Front` is not modelled as a field. It is always
  `getHandlerForRoute` outside the tests. `Barrier` takes any handler
  outcome, so the handlers the tests swap in are covered only through the
  abstract marshaller: their data is `OtherData`, and whether it marshals is
  the marshaller's business.
- Models.ErrorWrap: a nil error is not modelled. In Go, `ErrorWrap(nil)`
  fails the type test and then panics when it calls `Error()` on nil.
- `fmt.Sprintf`: ConstructApiError takes the already formatted message. The
  calculator passes ParseFloat's error text as the format string, so a '%'
  in that text would be reinterpreted by Go; the model keeps the text as it
  is.
- IEEE 754 arithmetic, `math.Pow` and `strconv.ParseFloat` are foreign and
  left uninterpreted; their error messages are whatever `parseFloat` returns.
- `encoding/json` is foreign: marshalling is a parameter. The model does not
  state which values fail to marshal (functions, channels, infinite or NaN
  floats). Because of that, the Unmarshallable-data body is stated as a
  constant, not as the marshalled `ApiErrorBody`.
- Utils.ToLower: maps ASCII `A`-`Z`, the Kelvin sign and capital dotted I,
  the only characters whose Go lower case lies in `[a-z0-9]`; it leaves every
  other character unchanged. Those characters lower-case to characters
  outside `[a-z0-9]` either way, so `Slug` is unaffected.
- Invalid UTF-8 in strings is not modelled; strings are sequences of
  characters.
- The model follows Go 1.21 or later throughout. The slice-bounds runtime
  error has that release's text, `runtime error: slice bounds out of range
  [:3] with length N`. Under it `panic(nil)` reaches `recover` as a
  `*runtime.PanicNilError`; no code of the core panics with nil, so that
  value is not modelled. Earlier releases worded the error differently and
  let `recover` return nil for `panic(nil)`.
- `strconv.Itoa` on a 64-bit `int`: the model's integers are unbounded,
  which makes no difference for the configured max-age.
- `api/main.go` (the Lambda entry point and build status) and
  `pkg/utils/testing.go` (test assertions) are not part of this model. The
  file that declares `Status` and `CalculationResult` is not part of this
  model either; their fields follow their uses in `api/main.go` and the
  handlers.

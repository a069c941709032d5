/** api/front/front.go: routing a request to its handler and wrapping the
    handler's result, error or panic into an API Gateway response. */
module Front {
  import opened Wrappers
  import opened Events
  import opened Models
  import opened Utils
  import opened FrontHandlers
  import Strconv

  /** The Front object: the status it reports and the max-age of its
      Cache-Control header. Its router is always getHandlerForRoute. */
  datatype Front = Front(status: Status, cacheMaxAge: int)

  function NewFront(status: Status, cacheMaxAge: int): (front: Front)
    ensures front.status == status && front.cacheMaxAge == cacheMaxAge
  {
    Front(status, cacheMaxAge)
  }

  /** The handler getHandlerForRoute picks. */
  datatype Route = StatusRoute | CalcRoute | UnknownRoute

  /** The route of a request: its HTTP method followed by its resource path. */
  function GetRoute(request: Request): (route: string)
    ensures |route| == |request.requestContext.httpMethod| + |request.requestContext.resourcePath|
    ensures route[..|request.requestContext.httpMethod|] == request.requestContext.httpMethod
    ensures route[|request.requestContext.httpMethod|..] == request.requestContext.resourcePath
  {
    request.requestContext.httpMethod + request.requestContext.resourcePath
  }

  function GetHandlerForRoute(route: string): (handler: Route)
    ensures handler == StatusRoute <==> route == "GET/status"
    ensures handler == CalcRoute <==> route == "GET/calc/{op}"
    ensures handler == UnknownRoute <==> route !in {"GET/status", "GET/calc/{op}"}
  {
    if route == "GET/status" then StatusRoute
    else if route == "GET/calc/{op}" then CalcRoute
    else UnknownRoute
  }

  /** unknownRouteHandler: no data, and a 404 naming the route. */
  function UnknownRouteHandler(request: Request): (o: Outcome)
    ensures o.Ok? && o.data == Nil && o.err.Some?
    ensures o.err.value.StatusCode() == StatusNotFound
    ensures o.err.value.Error() == "No such route as " + GetRoute(request)
  {
    Ok(Nil, Some(ConstructApiError(StatusNotFound, "No such route as " + GetRoute(request))))
  }

  /** seoString: the slug of `s`. */
  function SeoString(s: string): (r: string)
    ensures IsSlug(r)
    ensures RemoveHyphens(r) == SlugChars(ToLower(s))
  {
    Slug(s)
  }

  /** The route name of any string with an `[a-z0-9]` character after
      lower-casing is its maximal `[a-z0-9]` runs joined by single hyphens;
      any other string gives "". */
  lemma SeoStringWords(s: string) returns (seps: seq<string>, words: seq<string>)
    ensures SlugChars(ToLower(s)) == [] ==> SeoString(s) == ""
    ensures SlugChars(ToLower(s)) != [] ==>
      && Interleavable(seps, words) && ToLower(s) == Interleave(seps, words)
      && SeoString(s) == JoinHyphens(words)
  {
    seps, words := [], [];
    if SlugChars(ToLower(s)) == [] {
      SlugWithoutSlugChars(s);
    } else {
      seps, words := SlugOfAnyString(s);
    }
  }

  /** What the routed handler returns, or panics with. Only the calculator
      can panic, and only the two registered routes can succeed. */
  function Routed(front: Front, ops: FloatOps, request: Request): (o: Outcome)
    ensures o.Panicked? ==> GetRoute(request) == "GET/calc/{op}"
    ensures o.Ok? && o.err.None? ==> GetRoute(request) in {"GET/status", "GET/calc/{op}"}
    ensures GetRoute(request) == "GET/status" ==> o == StatusHandler(front.status, request)
    ensures GetRoute(request) == "GET/calc/{op}" ==> o == CalcOutcome(ops, request)
    ensures GetRoute(request) !in {"GET/status", "GET/calc/{op}"} ==>
      o.Ok? && o.err.Some? && o.err.value.StatusCode() == StatusNotFound
  {
    match GetHandlerForRoute(GetRoute(request))
    case StatusRoute => StatusHandler(front.status, request)
    case CalcRoute => CalcOutcome(ops, request)
    case UnknownRoute => UnknownRouteHandler(request)
  }

  /** json.Marshal applied to the two kinds of value a response body holds;
      None stands for a marshalling error. */
  datatype Codec = Codec(
    payload: Payload -> Option<JsonText>,
    errorBody: ApiErrorBody -> Option<JsonText>)

  /** The body sent when the data or error cannot be marshalled. */
  const UnmarshallableBody: string := "{\"message\":\"Unmarshallable data\",\"code\":500}"

  /** The headers of every response; `timestamp` is the formatted current time. */
  function ResponseHeaders(cacheMaxAge: int, timestamp: string): (headers: map<string, string>)
    ensures headers.Keys == {"Cache-Control", "Access-Control-Allow-Origin", "X-Timestamp"}
    ensures headers["Cache-Control"] == "max-age=" + Strconv.Itoa(cacheMaxAge)
    ensures headers["Access-Control-Allow-Origin"] == "*"
    ensures headers["X-Timestamp"] == timestamp
  {
    map["Cache-Control" := "max-age=" + Strconv.Itoa(cacheMaxAge),
        "Access-Control-Allow-Origin" := "*",
        "X-Timestamp" := timestamp]
  }

  /** The response buildResponse makes of a handler's data and error. */
  function Envelope(front: Front, codec: Codec, data: Payload, err: Option<ApiError>, timestamp: string): (r: Response)
    // An error wins over the data: its status and its marshalled body.
    ensures err.Some? && codec.errorBody(err.value.ErrorBody()).Some? ==>
      r.statusCode == err.value.StatusCode() && r.body == codec.errorBody(err.value.ErrorBody()).value
    // Without an error: 200 and the marshalled data.
    ensures err.None? && codec.payload(data).Some? ==>
      r.statusCode == StatusOK && r.body == codec.payload(data).value
    // Whichever of the two fails to marshal gives a 500.
    ensures (if err.Some? then codec.errorBody(err.value.ErrorBody()) else codec.payload(data)).None? ==>
      r.statusCode == StatusInternalServerError && r.body == UnmarshallableBody
    ensures r.body != ""
    ensures r.headers == ResponseHeaders(front.cacheMaxAge, timestamp)
  {
    var (body, statusCode) :=
      if err.Some? then (JsonStringify(codec.errorBody, err.value.ErrorBody()), err.value.StatusCode())
      else (JsonStringify(codec.payload, data), StatusOK);
    if body == "" then Response(UnmarshallableBody, StatusInternalServerError, ResponseHeaders(front.cacheMaxAge, timestamp))
    else Response(body, statusCode, ResponseHeaders(front.cacheMaxAge, timestamp))
  }

  /** buildResponse: body and status are set from the error or the data,
      then overwritten when marshalling failed. */
  method BuildResponse(front: Front, codec: Codec, data: Payload, err: Option<ApiError>, timestamp: string)
    returns (response: Response)
    ensures response == Envelope(front, codec, data, err, timestamp)
  {
    var body: string;
    var statusCode: int;

    if err.Some? {
      body := JsonStringify(codec.errorBody, err.value.ErrorBody());
      statusCode := err.value.StatusCode();
    } else {
      body := JsonStringify(codec.payload, data);
      statusCode := StatusOK;
    }

    if body == "" {
      statusCode := StatusInternalServerError;
      body := "{\"message\":\"Unmarshallable data\",\"code\":" + Strconv.Itoa(statusCode) + "}";
      assert Strconv.Itoa(500) == "500";
    }

    var headers := map[];
    headers := headers["Cache-Control" := "max-age=" + Strconv.Itoa(front.cacheMaxAge)];
    headers := headers["Access-Control-Allow-Origin" := "*"];
    headers := headers["X-Timestamp" := timestamp];

    response := Response(body, statusCode, headers);
  }

  /** The response Handler returns for a handler outcome: what buildResponse
      makes of the handler's results, or, after a panic, of no data and a 500
      error carrying the panic value as text. */
  function Barrier(front: Front, codec: Codec, outcome: Outcome, timestamp: string): (r: Response)
    ensures outcome.Ok? ==> r == Envelope(front, codec, outcome.data, outcome.err, timestamp)
    ensures outcome.Panicked? ==>
      r == Envelope(front, codec, Nil, Some(ConstructApiError(StatusInternalServerError, outcome.value.Formatted())), timestamp)
    ensures outcome.Panicked? ==> r.statusCode == StatusInternalServerError
    ensures outcome.Panicked? && codec.errorBody(ApiErrorBody(outcome.value.Formatted(), StatusInternalServerError)).Some? ==>
      r.body == codec.errorBody(ApiErrorBody(outcome.value.Formatted(), StatusInternalServerError)).value
  {
    match outcome
    case Ok(data, err) => Envelope(front, codec, data, err, timestamp)
    case Panicked(value) =>
      Envelope(front, codec, Nil, Some(ConstructApiError(StatusInternalServerError, value.Formatted())), timestamp)
  }

  /** Handler: route the request, run the handler and build the response;
      the deferred recover replaces the response when the handler panics.
      The error result is never set. */
  method Handler(front: Front, codec: Codec, ops: FloatOps, request: Request, timestamp: string)
    returns (response: Response, err: Option<Fault>)
    ensures err.None?
    ensures response == Barrier(front, codec, Routed(front, ops, request), timestamp)
  {
    err := None;
    var route := GetRoute(request);

    var outcome: Outcome;
    match GetHandlerForRoute(route) {
      case StatusRoute =>
        outcome := StatusHandler(front.status, request);
      case CalcRoute =>
        outcome := CalcHandler(ops, request);
      case UnknownRoute =>
        outcome := UnknownRouteHandler(request);
    }

    match outcome {
      case Ok(data, apiErr) =>
        response := BuildResponse(front, codec, data, apiErr, timestamp);
      case Panicked(r) =>
        var apiErr := ConstructApiError(StatusInternalServerError, r.Formatted());
        response := BuildResponse(front, codec, Nil, Some(apiErr), timestamp);
    }
  }

  /** Every response, whatever the route and outcome, carries the three
      headers, and its Cache-Control max-age reads back as the configured one. */
  lemma ResponseHeadersAlways(front: Front, codec: Codec, outcome: Outcome, timestamp: string)
    ensures var r := Barrier(front, codec, outcome, timestamp);
      && r.headers.Keys == {"Cache-Control", "Access-Control-Allow-Origin", "X-Timestamp"}
      && r.headers["Access-Control-Allow-Origin"] == "*"
      && r.headers["X-Timestamp"] == timestamp
      && |r.headers["Cache-Control"]| > 8
      && r.headers["Cache-Control"][..8] == "max-age="
      && Strconv.ReadDecimal(r.headers["Cache-Control"][8..]) == Some(front.cacheMaxAge)
  {
    var r := Barrier(front, codec, outcome, timestamp);
    var digits := Strconv.Itoa(front.cacheMaxAge);
    assert r.headers["Cache-Control"] == "max-age=" + digits;
    assert ("max-age=" + digits)[8..] == digits;
    Strconv.ItoaRoundTrip(front.cacheMaxAge);
  }

  /** GET/status answers 200 with the marshalled status. */
  lemma StatusRouteResponse(front: Front, codec: Codec, ops: FloatOps, request: Request, timestamp: string)
    requires GetRoute(request) == "GET/status"
    requires codec.payload(StatusData(front.status)).Some?
    ensures var r := Barrier(front, codec, Routed(front, ops, request), timestamp);
      r.statusCode == StatusOK && r.body == codec.payload(StatusData(front.status)).value
  {
  }

  /** Any other route than the two registered ones answers 404 with the
      marshalled error naming the route. */
  lemma UnknownRouteResponse(front: Front, codec: Codec, ops: FloatOps, request: Request, timestamp: string)
    requires GetRoute(request) !in {"GET/status", "GET/calc/{op}"}
    requires codec.errorBody(ApiErrorBody("No such route as " + GetRoute(request), StatusNotFound)).Some?
    ensures var r := Barrier(front, codec, Routed(front, ops, request), timestamp);
      && r.statusCode == StatusNotFound
      && r.body == codec.errorBody(ApiErrorBody("No such route as " + GetRoute(request), StatusNotFound)).value
  {
    var o := UnknownRouteHandler(request);
    assert o.err.value.ErrorBody() == ApiErrorBody("No such route as " + GetRoute(request), StatusNotFound);
  }

  /** A calculation that succeeds answers 200 with the marshalled result,
      unless the result cannot be marshalled (an infinite or NaN float),
      which answers 500. */
  lemma CalcRouteResponse(front: Front, codec: Codec, ops: FloatOps, request: Request, timestamp: string)
    requires GetRoute(request) == "GET/calc/{op}"
    requires FloatParam(ops, request, "val1").Success? && FloatParam(ops, request, "val2").Success?
    requires OperationOf(IndexOrZero(request.pathParameters, "op")).Some?
    ensures var op := IndexOrZero(request.pathParameters, "op");
      var val1 := FloatParam(ops, request, "val1").value;
      var val2 := FloatParam(ops, request, "val2").value;
      var data := CalcData(CalculationResult(LocaleOf(request), op, Apply(ops, OperationOf(op).value, val1, val2), val1, val2));
      var r := Barrier(front, codec, Routed(front, ops, request), timestamp);
      && (codec.payload(data).Some? ==> r.statusCode == StatusOK && r.body == codec.payload(data).value)
      && (codec.payload(data).None? ==> r.statusCode == StatusInternalServerError && r.body == UnmarshallableBody)
  {
    var op := IndexOrZero(request.pathParameters, "op");
    assert Utf8Length(op) >= |op| >= 3;
  }

  /** A calculator operation shorter than three bytes panics; the barrier
      turns that into a 500 whose message is the runtime error. */
  lemma CalcShortOperationResponse(front: Front, codec: Codec, ops: FloatOps, request: Request, timestamp: string)
    requires GetRoute(request) == "GET/calc/{op}"
    requires FloatParam(ops, request, "val1").Success? && FloatParam(ops, request, "val2").Success?
    requires Utf8Length(IndexOrZero(request.pathParameters, "op")) < 3
    ensures var r := Barrier(front, codec, Routed(front, ops, request), timestamp);
      var message := SliceBoundsPanic(Utf8Length(IndexOrZero(request.pathParameters, "op"))).Formatted();
      && r.statusCode == StatusInternalServerError
      && (codec.errorBody(ApiErrorBody(message, StatusInternalServerError)).Some? ==>
            r.body == codec.errorBody(ApiErrorBody(message, StatusInternalServerError)).value)
  {
  }
}

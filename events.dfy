/** The parts of the API Gateway proxy event and response types (from the
    aws-lambda-go `events` package) that the router reads and writes, and the
    HTTP status constants of Go's `net/http` that it uses. */
module Events {
  import opened Wrappers

  const StatusOK: int := 200
  const StatusBadRequest: int := 400
  const StatusNotFound: int := 404
  const StatusInternalServerError: int := 500

  datatype RequestContext = RequestContext(httpMethod: string, resourcePath: string)

  /** APIGatewayProxyRequest: only the fields the router and its handlers read. */
  datatype Request = Request(
    requestContext: RequestContext,
    pathParameters: map<string, string>,
    queryStringParameters: map<string, string>,
    headers: map<string, string>)

  /** APIGatewayProxyResponse. */
  datatype Response = Response(body: string, statusCode: int, headers: map<string, string>)

  /** Go's two-result map lookup `v, ok := m[k]`. */
  function Lookup(m: map<string, string>, k: string): (r: Option<string>)
    ensures r.Some? <==> k in m
    ensures r.Some? ==> r.value == m[k]
  {
    if k in m then Some(m[k]) else None
  }

  /** Go's one-result map lookup `m[k]`, which yields the zero value `""` for a
      missing key. */
  function IndexOrZero(m: map<string, string>, k: string): (r: string)
    ensures k in m ==> r == m[k]
    ensures k !in m ==> r == ""
  {
    if k in m then m[k] else ""
  }
}

/** api/front/front_handlers.go: the status and calculator handlers. */
module FrontHandlers {
  import opened Wrappers
  import opened Events
  import opened Models
  import opened Utils
  import Strconv

  /** The `interface{}` a handler returns as data: `nil`, the status, a
      calculation, or any other Go value, told apart by `id` and known only to
      the JSON marshaller (the router's own handlers never return one). */
  datatype Payload =
    | Nil
    | StatusData(status: Status)
    | CalcData(calculation: CalculationResult)
    | OtherData(id: nat)

  /** What running a handler under the recover barrier yields: its two return
      values, or the value it panicked with. */
  datatype Outcome = Ok(data: Payload, err: Option<ApiError>) | Panicked(value: PanicValue)

  /** float64 arithmetic, `math.Pow` and `strconv.ParseFloat` (whose error is
      given by its message), all foreign to the model; `zero` is Go's zero
      value 0.0 and `one` the constant 1. */
  datatype FloatOps = FloatOps(
    parseFloat: string -> Result<Num, string>,
    add: (Num, Num) -> Num,
    sub: (Num, Num) -> Num,
    mul: (Num, Num) -> Num,
    div: (Num, Num) -> Num,
    pow: (Num, Num) -> Num,
    zero: Num,
    one: Num)

  datatype Operation = Add | Sub | Mul | Div | Pow | Root

  /** statusHandler: the configured status, unchanged, and no error. */
  function StatusHandler(status: Status, request: Request): (o: Outcome)
    ensures o.Ok? && o.err.None?
    ensures o.data.StatusData? && o.data.status == status
  {
    Ok(StatusData(status), None)
  }

  /** Number of bytes of the UTF-8 encoding of `c`. */
  function Utf8Width(c: char): nat
  {
    if c as int < 0x80 then 1
    else if c as int < 0x800 then 2
    else if c as int < 0x10000 then 3
    else 4
  }

  /** `len(s)` for a Go string: its length in UTF-8 bytes. */
  function Utf8Length(s: string): (n: nat)
    ensures |s| <= n <= 4 * |s|
    ensures (forall i :: 0 <= i < |s| ==> s[i] as int < 0x80) ==> n == |s|
  {
    if s == [] then 0 else Utf8Width(s[0]) + Utf8Length(s[1..])
  }

  /** The three-byte prefixes the calculator accepts. */
  const KnownPrefixes: set<string> := {"add", "sub", "mul", "div", "pow", "roo"}

  /** The operation `op[0:3]` selects. The bytes of a non-ASCII character
      never spell an ASCII letter, so the byte prefix matches one of the
      ASCII names exactly when the first three characters do. */
  function OperationOf(op: string): (r: Option<Operation>)
    ensures r.Some? <==> |op| >= 3 && op[..3] in KnownPrefixes
  {
    if |op| < 3 then None
    else
      var prefix := op[..3];
      if prefix == "add" then Some(Add)
      else if prefix == "sub" then Some(Sub)
      else if prefix == "mul" then Some(Mul)
      else if prefix == "div" then Some(Div)
      else if prefix == "pow" then Some(Pow)
      else if prefix == "roo" then Some(Root)
      else None
  }

  /** Only the first three characters of `op` choose the operation. */
  lemma OperationOfPrefix(op: string, rest: string)
    requires |op| >= 3
    ensures OperationOf(op + rest) == OperationOf(op)
  {
    assert (op + rest)[..3] == op[..3];
  }

  /** The arithmetic each operation stands for; a root is a power with the
      reciprocal exponent. */
  function Apply(ops: FloatOps, operation: Operation, val1: Num, val2: Num): (r: Num)
    ensures operation == Add ==> r == ops.add(val1, val2)
    ensures operation == Sub ==> r == ops.sub(val1, val2)
    ensures operation == Mul ==> r == ops.mul(val1, val2)
    ensures operation == Div ==> r == ops.div(val1, val2)
    ensures operation == Pow ==> r == ops.pow(val1, val2)
    ensures operation == Root ==> r == ops.pow(val1, ops.div(ops.one, val2))
  {
    match operation
    case Add => ops.add(val1, val2)
    case Sub => ops.sub(val1, val2)
    case Mul => ops.mul(val1, val2)
    case Div => ops.div(val1, val2)
    case Pow => ops.pow(val1, val2)
    case Root => ops.pow(val1, ops.div(ops.one, val2))
  }

  /** The runtime error `op[0:3]` panics with when `op` has fewer than three
      bytes; it is not a Go string, so JsonStack reports it as "Unprintable". */
  function SliceBoundsPanic(length: nat): (p: PanicValue)
    ensures p.OtherPanic?
  {
    OtherPanic("runtime error: slice bounds out of range [:3] with length " + Strconv.Itoa(length))
  }

  /** The value of query parameter `key`, or the error getFloatFromRequest
      reports: a missing key, or ParseFloat's own error. */
  function FloatParam(ops: FloatOps, request: Request, key: string): (r: Result<Num, string>)
    ensures key !in request.queryStringParameters ==> r == Failure("Missing parameter " + key)
    ensures key in request.queryStringParameters ==> r == ops.parseFloat(request.queryStringParameters[key])
  {
    match Lookup(request.queryStringParameters, key)
    case None => Failure("Missing parameter " + key)
    case Some(val) => ops.parseFloat(val)
  }

  /** getFloatFromRequest: the named results start at their zero values and
      are set step by step; on an error the number is not meaningful. */
  method GetFloatFromRequest(ops: FloatOps, request: Request, key: string) returns (result: Num, err: Option<string>)
    ensures err.None? <==> FloatParam(ops, request, key).Success?
    ensures err.Some? ==> err.value == FloatParam(ops, request, key).error
    ensures err.None? ==> result == FloatParam(ops, request, key).value
  {
    result, err := ops.zero, None;
    var val := Lookup(request.queryStringParameters, key);
    if val.None? {
      err := Some("Missing parameter " + key);
      return;
    }
    match ops.parseFloat(val.value) {
      case Success(v) =>
        result, err := v, None;
      case Failure(e) =>
        err := Some(e);
    }
  }

  /** The `locale` header, or "undefined" when there is none. */
  function LocaleOf(request: Request): (locale: string)
    ensures "locale" in request.headers ==> locale == request.headers["locale"]
    ensures "locale" !in request.headers ==> locale == "undefined"
  {
    match Lookup(request.headers, "locale")
    case Some(l) => l
    case None => "undefined"
  }

  /** What calcHandler returns (or panics with) for `request`. */
  function CalcOutcome(ops: FloatOps, request: Request): (o: Outcome)
    // A missing or unreadable val1 is reported first, whatever val2 and op are.
    ensures FloatParam(ops, request, "val1").Failure? ==>
      o == Ok(Nil, Some(ConstructApiError(StatusBadRequest, FloatParam(ops, request, "val1").error)))
    // Then val2, whatever op is.
    ensures FloatParam(ops, request, "val1").Success? && FloatParam(ops, request, "val2").Failure? ==>
      o == Ok(Nil, Some(ConstructApiError(StatusBadRequest, FloatParam(ops, request, "val2").error)))
    // With both numbers read, `op[0:3]` decides.
    ensures FloatParam(ops, request, "val1").Success? && FloatParam(ops, request, "val2").Success? ==>
      var op := IndexOrZero(request.pathParameters, "op");
      && (Utf8Length(op) < 3 ==> o == Panicked(SliceBoundsPanic(Utf8Length(op))))
      && (Utf8Length(op) >= 3 && OperationOf(op).None? ==>
            o == Ok(Nil, Some(ConstructApiError(StatusBadRequest, "Unknown operation " + op))))
      && (Utf8Length(op) >= 3 && OperationOf(op).Some? ==>
            o.Ok? && o.err.None? && o.data.CalcData?)
    // A success echoes op, the two numbers and the locale.
    ensures o.Ok? && o.err.None? ==>
      && FloatParam(ops, request, "val1").Success? && FloatParam(ops, request, "val2").Success?
      && OperationOf(IndexOrZero(request.pathParameters, "op")).Some?
      && var op := IndexOrZero(request.pathParameters, "op");
         var val1 := FloatParam(ops, request, "val1").value;
         var val2 := FloatParam(ops, request, "val2").value;
         o.data == CalcData(CalculationResult(LocaleOf(request), op,
                                              Apply(ops, OperationOf(op).value, val1, val2), val1, val2))
  {
    var op := IndexOrZero(request.pathParameters, "op");
    match FloatParam(ops, request, "val1")
    case Failure(m) => Ok(Nil, Some(ConstructApiError(StatusBadRequest, m)))
    case Success(val1) =>
      match FloatParam(ops, request, "val2")
      case Failure(m) => Ok(Nil, Some(ConstructApiError(StatusBadRequest, m)))
      case Success(val2) =>
        if Utf8Length(op) < 3 then Panicked(SliceBoundsPanic(Utf8Length(op)))
        else
          match OperationOf(op)
          case None => Ok(Nil, Some(ConstructApiError(StatusBadRequest, "Unknown operation " + op)))
          case Some(operation) =>
            Ok(CalcData(CalculationResult(LocaleOf(request), op, Apply(ops, operation, val1, val2), val1, val2)), None)
  }

  /** A request without val1 is refused for that, whatever else it holds; one
      with a readable val1 but no val2 is refused for val2. */
  lemma CalcMissingParameter(ops: FloatOps, request: Request)
    ensures "val1" !in request.queryStringParameters ==>
      CalcOutcome(ops, request) == Ok(Nil, Some(ConstructApiError(StatusBadRequest, "Missing parameter val1")))
    ensures FloatParam(ops, request, "val1").Success? && "val2" !in request.queryStringParameters ==>
      CalcOutcome(ops, request) == Ok(Nil, Some(ConstructApiError(StatusBadRequest, "Missing parameter val2")))
  {
    assert "Missing parameter " + "val1" == "Missing parameter val1";
    assert "Missing parameter " + "val2" == "Missing parameter val2";
  }

  /** With both numbers read and an operation of at least three characters,
      its first three characters decide the result: each known prefix applies
      its own arithmetic to val1 and val2, and any other prefix is refused. */
  lemma CalcResultByPrefix(ops: FloatOps, request: Request)
    requires FloatParam(ops, request, "val1").Success? && FloatParam(ops, request, "val2").Success?
    requires |IndexOrZero(request.pathParameters, "op")| >= 3
    ensures var op := IndexOrZero(request.pathParameters, "op");
      var a := FloatParam(ops, request, "val1").value;
      var b := FloatParam(ops, request, "val2").value;
      var o := CalcOutcome(ops, request);
      && (op[..3] in KnownPrefixes ==> o.Ok? && o.err.None? && o.data.CalcData?)
      && (op[..3] == "add" ==> o.data.calculation.result == ops.add(a, b))
      && (op[..3] == "sub" ==> o.data.calculation.result == ops.sub(a, b))
      && (op[..3] == "mul" ==> o.data.calculation.result == ops.mul(a, b))
      && (op[..3] == "div" ==> o.data.calculation.result == ops.div(a, b))
      && (op[..3] == "pow" ==> o.data.calculation.result == ops.pow(a, b))
      && (op[..3] == "roo" ==> o.data.calculation.result == ops.pow(a, ops.div(ops.one, b)))
      && (op[..3] !in KnownPrefixes ==>
            o == Ok(Nil, Some(ConstructApiError(StatusBadRequest, "Unknown operation " + op))))
  {
  }

  /** calcHandler. */
  method CalcHandler(ops: FloatOps, request: Request) returns (outcome: Outcome)
    ensures outcome == CalcOutcome(ops, request)
  {
    var op := IndexOrZero(request.pathParameters, "op");

    var val1, err := GetFloatFromRequest(ops, request, "val1");
    if err.Some? {
      return Ok(Nil, Some(ConstructApiError(StatusBadRequest, err.value)));
    }

    var val2, err2 := GetFloatFromRequest(ops, request, "val2");
    if err2.Some? {
      return Ok(Nil, Some(ConstructApiError(StatusBadRequest, err2.value)));
    }

    var locale := "undefined";
    var header := Lookup(request.headers, "locale");
    if header.Some? {
      locale := header.value;
    }

    var calculation := CalculationResult(locale, op, ops.zero, val1, val2);

    // op[0:3] slices bytes; it panics when there are fewer than three.
    if Utf8Length(op) < 3 {
      return Panicked(SliceBoundsPanic(Utf8Length(op)));
    }
    var prefix := if |op| >= 3 then op[..3] else op;

    if prefix == "add" {
      calculation := calculation.(result := ops.add(val1, val2));
    } else if prefix == "sub" {
      calculation := calculation.(result := ops.sub(val1, val2));
    } else if prefix == "mul" {
      calculation := calculation.(result := ops.mul(val1, val2));
    } else if prefix == "div" {
      calculation := calculation.(result := ops.div(val1, val2));
    } else if prefix == "pow" {
      calculation := calculation.(result := ops.pow(val1, val2));
    } else if prefix == "roo" {
      calculation := calculation.(result := ops.pow(val1, ops.div(ops.one, val2)));
    } else {
      return Ok(Nil, Some(ConstructApiError(StatusBadRequest, "Unknown operation " + op)));
    }

    outcome := Ok(CalcData(calculation), None);
  }
}

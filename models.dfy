/** The error model of pkg/models/apiError.go, and the two payload records of
    the models package that the handlers return. */
module Models {
  import opened Events

  /** A 64-bit float. Its arithmetic and its parsing are foreign (IEEE 754 and
      strconv), so the type is left uninterpreted. */
  type Num

  /** The serialisable body of an error: `{"message": ..., "code": ...}`. */
  datatype ApiErrorBody = ApiErrorBody(message: string, code: int)

  /** `errBody`, the one implementation of the `ApiError` interface. The
      three accessors are the interface's methods. */
  datatype ApiError = ErrBody(body: ApiErrorBody)
  {
    function Error(): string
    {
      body.message
    }

    function StatusCode(): int
    {
      body.code
    }

    /** The body view always agrees with the two scalar accessors. */
    function ErrorBody(): (b: ApiErrorBody)
      ensures b == ApiErrorBody(Error(), StatusCode())
    {
      body
    }
  }

  /** A Go `error` value as `ErrorWrap` sees it: either something that already
      implements `ApiError`, or a plain error with only a message. */
  datatype Fault = ApiFault(apiError: ApiError) | PlainError(message: string)
  {
    /** The fault's `Error()` text. */
    function Message(): string
    {
      match this
      case ApiFault(e) => e.Error()
      case PlainError(m) => m
    }
  }

  /** ConstructApiError with the message already formatted; the code is stored
      as given, without any range check. */
  function ConstructApiError(code: int, message: string): (e: ApiError)
    ensures e.StatusCode() == code
    ensures e.Error() == message
  {
    ErrBody(ApiErrorBody(message, code))
  }

  /** ErrorWrap: an `ApiError` passes through untouched; any other error
      becomes a 500 carrying that error's message. */
  function ErrorWrap(err: Fault): (e: ApiError)
    ensures err.ApiFault? ==> e == err.apiError
    ensures err.PlainError? ==> e.StatusCode() == StatusInternalServerError
    ensures e.Error() == err.Message()
  {
    match err
    case ApiFault(apiErr) => apiErr
    case PlainError(m) => ErrBody(ApiErrorBody(m, StatusInternalServerError))
  }

  /** Wrapping keeps both the code and the message of an error that is already
      an `ApiError`; in particular of one built by ConstructApiError. */
  lemma WrapConstructed(code: int, message: string)
    ensures ErrorWrap(ApiFault(ConstructApiError(code, message))).StatusCode() == code
    ensures ErrorWrap(ApiFault(ConstructApiError(code, message))).Error() == message
  {
  }

  /** Wrapping twice is wrapping once. */
  lemma ErrorWrapIdempotent(err: Fault)
    ensures ErrorWrap(ApiFault(ErrorWrap(err))) == ErrorWrap(err)
  {
  }

  /** The build information echoed by the status route (the `Status` struct of
      the models package, fields as set in api/main.go). */
  datatype Status = Status(platform: string, commit: string, branch: string, release: string, timestamp: string)

  /** `CalculationResult`: what the calc route returns on success. */
  datatype CalculationResult = CalculationResult(locale: string, op: string, result: Num, val1: Num, val2: Num)
}

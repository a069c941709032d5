/** Option and Result values used where the Go code returns a value together
    with an `ok` flag or an `error`. */
module Wrappers {

  datatype Option<+T> = None | Some(value: T)

  datatype Result<+R, +E> = Success(value: R) | Failure(error: E)
}

/** Failure-carrying datatypes used for the replies of the external stores
    and for the outcome of decoding a request body. */
module Wrappers {

  /** A value that may be absent, like a nil reference in Go. */
  datatype Option<+T> = None | Some(value: T)

  /** A call that returns a value or an error (the `(x, err)` pair of the source). */
  datatype Result<+T, +E> = Success(value: T) | Failure(error: E)

  /** A call that returns only an error (the bare `err` of the source). */
  datatype Outcome<+E> = Pass | Fail(error: E)
}

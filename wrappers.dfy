/** Failure-compatible result types used for Go's `(value, error)` and `error` returns. */
module Wrappers {

  /** A call that returns a value or an error. */
  datatype Result<+T, +E> = Ok(value: T) | Err(error: E)

  /** A call that returns only an error, `Pass` standing for Go's `nil`. */
  datatype Outcome<+E> = Pass | Fail(error: E)
}

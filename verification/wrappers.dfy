/** Optional values and success-or-error results, the two shapes the exporter's
    Go code expresses with `nil` returns and `(value, error)` pairs. */
module Wrappers {

  /** A value that may be absent (`nil` in the source). */
  datatype Option<+T> = None | Some(value: T)

  /** The outcome of an operation that either produces a value or fails with an error. */
  datatype Result<+T, +E> = Ok(value: T) | Err(error: E)
}

/** Optional values and results with errors, used for Go's nil values and
    (value, error) returns. */
module Wrappers {

  datatype Option<+T> = None | Some(value: T)

  datatype Result<+T, +E> = Ok(value: T) | Err(error: E)

  /** What a call that may panic does: return a value, or panic. */
  datatype Outcome<+T> = Returned(value: T) | Panicked
}

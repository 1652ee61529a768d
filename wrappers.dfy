/** Optional values and results with an error, used for the Go code's
    `(value, error)` returns and nil-able values. */
module Wrappers {

  datatype Option<+T> = None | Some(value: T)

  datatype Result<+T, +E> = Ok(value: T) | Err(error: E)
}

/** The usual optional and failure-carrying values. */
module Wrappers {

  /** Python's `None` or a present value. */
  datatype Option<+T> = None | Some(value: T)

  /** A computation that either returned a value or raised. */
  datatype Result<+T, +E> = Ok(value: T) | Err(error: E)
}

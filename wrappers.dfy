/** Failure-compatible wrappers shared by the whole model. */
module Wrappers {

  /** A value that may be absent (JavaScript's `null` or `undefined`). */
  datatype Option<+T> = None | Some(value: T)

  /** A value or the error a JavaScript `throw` would have carried. */
  datatype Result<+T, +E> = Ok(value: T) | Err(error: E)
}

/** Failure-compatible wrappers shared by the other modules. */
module Wrappers {

  /** A value that may be missing: JavaScript's `undefined` / `null`. */
  datatype Option<+T> = None | Some(value: T)

  /** The outcome of an operation that may throw: the value or the error message. */
  datatype Result<+T> = Ok(value: T) | Err(message: string)
}

/** Failure-carrying values shared by the other modules. */
module Wrappers {

  /** A value that may be absent; Python's `None` return. */
  datatype Option<+T> = None | Some(value: T)

  /** A value, or the exception that replaced it. */
  datatype Result<+T, +E> = Ok(value: T) | Err(error: E)
}

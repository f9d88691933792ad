/** Failure-carrying datatypes used to model the exceptions the source raises. */
module Wrappers {

  /** A value or nothing (Python's `None`). */
  datatype Option<+T> = None | Some(value: T)

  /** A value, or the exception that the source raises instead of returning one. */
  datatype Result<+T, +E> = Ok(value: T) | Err(error: E)
}

/** Failure-carrying datatypes used in place of Python's `None` and `raise`. */
module Wrappers {

  /** An optional value (Python's `X | None`). */
  datatype Option<+T> = None | Some(value: T)

  /** A value or the error a raised exception would carry. */
  datatype Result<+T, +E> = Ok(value: T) | Err(error: E)

  /** The outcome of a check that returns nothing or raises. */
  datatype Outcome<+E> = Pass | Fail(error: E)
}

/** Failure-carrying datatypes used in place of Python's `None` returns and raised exceptions. */
module Wrappers {

  /** A value that may be absent: Python's `x if element else None` and `find(...)` results. */
  datatype Option<+T> = None | Some(value: T)

  /** Either a value or the error that a Python call would have raised. */
  datatype Result<+T, +E> = Success(value: T) | Failure(error: E)
}

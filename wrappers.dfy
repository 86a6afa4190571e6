/** Optional values and error returns, standing in for Python's `None` and its exceptions. */
module Wrappers {

  datatype Option<+T> = None | Some(value: T)

  /** A call that returns a value or raises an exception. */
  datatype Result<+T, +E> = Ok(value: T) | Err(error: E)

  /** A call that returns nothing or raises an exception. */
  datatype Outcome<+E> = Pass | Fail(error: E)
}

/** Optional values and results with an error, as used across the model. */
module Wrappers {

  /** A value that may be absent: Python's `None` in a row or an entry. */
  datatype Option<+T> = None | Some(value: T)

  /** The outcome of an operation that can raise: `Err` stands for the exception. */
  datatype Result<+T, +E> = Ok(value: T) | Err(error: E)
}

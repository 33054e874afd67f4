/** The two shapes the operations of this model return. */
module Wrappers {

  /** A value that may be absent, as Python's None. */
  datatype Option<+T> = None | Some(value: T)

  /** An operation that either produces a value or raises an exception. */
  datatype Result<+T, +E> = Ok(value: T) | Err(error: E)
}

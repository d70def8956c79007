/** Option and Result: the absent JavaScript value and the thrown error, as data. */
module Wrappers {

  /** A value that may be missing (`null`/`undefined` in the source). */
  datatype Option<+T> = None | Some(value: T)

  /** The outcome of an operation that may throw. */
  datatype Result<+T, +E> = Ok(value: T) | Err(error: E)
}

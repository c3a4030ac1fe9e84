/** The two result shapes used throughout the model. */
module Wrappers {

  /** A value that may be absent: a nil value, a missing map entry, an invalid prefix. */
  datatype Option<+T> = None | Some(value: T)

  /** A returned value or a returned error. */
  datatype Result<+T, +E> = Ok(value: T) | Err(error: E)
}

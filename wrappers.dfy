/** Option and Result, used wherever the source fails, throws or reads past the end of a stream. */
module Wrappers {

  datatype Option<+T> = None | Some(value: T)

  datatype Result<+T, +E> = Ok(value: T) | Err(error: E)
}

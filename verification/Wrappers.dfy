/** Option and Result, the two shapes a Python call can end in when it may have
    nothing to return or may raise. */
module Wrappers {
  datatype Option<+T> = None | Some(value: T)

  datatype Result<+T, +E> = Ok(value: T) | Err(error: E)
}

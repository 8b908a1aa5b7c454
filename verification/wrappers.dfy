/** Option and Result: an input that may be absent, and an outcome that may be a fatal error. */
module Wrappers {

  datatype Option<+T> = None | Some(value: T)

  datatype Result<+R, +E> = Ok(value: R) | Err(error: E)
}

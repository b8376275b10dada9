/** Option and Result, used for the source's "no value" (None) and its exceptions (ValueError). */
module Wrappers {

  datatype Option<+T> = None | Some(value: T)

  datatype Result<+T, +E> = Ok(value: T) | Err(error: E)
}

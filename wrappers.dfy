/** Option and Result, the two failure-carrying wrappers the model uses. */
module Wrappers {

  datatype Option<+T> = None | Some(value: T)

  /** `Err` carries the message a Go function would return as an error or panic with. */
  datatype Result<+T, +E> = Ok(value: T) | Err(error: E)
}

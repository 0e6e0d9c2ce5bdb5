/** Option and Result, the shapes used for "may be absent" and "may fail". */
module Wrappers {

  datatype Option<+T> = None | Some(value: T)

  /** Ok carries the value of a call that succeeded; Err the error it raised. */
  datatype Result<+T, +E> = Ok(value: T) | Err(error: E)
}

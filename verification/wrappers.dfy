/** Option and Result, for Ruby's nil and for the exceptions and aborts of the script. */
module Wrappers {

  datatype Option<+T> = None | Some(value: T)

  datatype Result<+T, +E> = Ok(value: T) | Err(error: E)
}

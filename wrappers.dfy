/** Option and Result values used across the model for "maybe absent" inputs
    and for the error paths the source reports instead of raising. */
module Wrappers {

  datatype Option<+T> = None | Some(value: T)

  datatype Result<+R, +E> = Ok(value: R) | Err(error: E)
}

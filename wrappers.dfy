/** Option and Result, the two failure-carrying datatypes the model uses:
    Option stands for a JavaScript value that may be NaN or undefined,
    Result for a computation that may throw. */
module Wrappers {

  datatype Option<+T> = None | Some(value: T)

  datatype Result<+R, +E> = Ok(value: R) | Err(error: E)
}

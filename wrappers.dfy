/** Option and Result, the two failure-carrying shapes the model needs. */
module Wrappers {

  datatype Option<+T> = None | Some(value: T)

  /** `Ok` carries a value, `Err` the reason something failed. */
  datatype Result<+T, +E> = Ok(value: T) | Err(error: E)
}

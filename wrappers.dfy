/** Option and Result, the two failure-carrying return shapes of the modelled Rust code. */
module Wrappers {

  datatype Option<+T> = None | Some(value: T)

  datatype Result<+T, +E> = Ok(value: T) | Err(error: E)
}

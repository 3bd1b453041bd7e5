/** Option and Result, the two failure-carrying shapes the model uses. */
module Wrappers {

  datatype Option<+T> = None | Some(value: T)

  /** `Err` stands for a Rust `unwrap` or `assert!` that panics, or an I/O error. */
  datatype Result<+T, +E> = Ok(value: T) | Err(error: E)
}

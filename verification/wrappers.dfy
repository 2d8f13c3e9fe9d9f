/** Option and Result, the two sum types the order books use for absent values and for errors. */
module Wrappers {

  /** A value that may be absent, like Rust's `Option<T>`. */
  datatype Option<+T> = None | Some(value: T)

  /** A value or an error, like Rust's `Result<T, E>`. */
  datatype Result<+T, +E> = Ok(value: T) | Err(error: E)
}

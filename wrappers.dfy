/** Option and Result, as the Rust `Option` and `Result` types used throughout the crate. */
module Wrappers {
  datatype Option<T> = None | Some(value: T)

  datatype Result<T, E> = Ok(value: T) | Err(error: E)
}

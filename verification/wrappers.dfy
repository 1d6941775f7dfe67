/** Optional values and results used throughout the model. */
module Wrappers {

  /** An optional value. */
  datatype Option<+T> = None | Some(value: T)

  /** Either a value or an error; the model of Rust's `anyhow::Result` and of a panic. */
  datatype Result<+R, +E> = Success(value: R) | Failure(error: E)
}

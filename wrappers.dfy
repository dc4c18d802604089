/** Rust's `Option` and `Result`, as used throughout the model. */
module Wrappers {

  /** Rust's `Option`. */
  datatype Option<+T> = None | Some(value: T)

  /** A value or the error that the source raises instead of returning it. */
  datatype Result<+R, +E> = Success(value: R) | Failure(error: E)
}

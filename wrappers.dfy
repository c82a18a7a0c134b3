/** Failure-carrying wrappers used across the model. */
module Wrappers {

  /** A value that may be absent (Rust's `Option`). */
  datatype Option<+T> = None | Some(value: T)

  /** A value or an error (Rust's `Result`). */
  datatype Result<+T, +E> = Success(value: T) | Failure(error: E)

  /** Success without a value, or an error (Rust's `Result<()>`). */
  datatype Outcome<+E> = Pass | Fail(error: E)
}

/** Option and Result values shared by the matcher and configuration modules. */
module Wrappers {

  /** A value that may be absent (Rust's `Option`). */
  datatype Option<+T> = None | Some(value: T)

  /** The outcome of an operation that can fail (Rust's `Result`, or a panic
      site such as `expect` turned into an explicit error value). */
  datatype Result<+T, +E> = Success(value: T) | Failure(error: E)
}

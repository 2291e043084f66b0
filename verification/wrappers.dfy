/** Failure-carrying result types shared by every module of the model. */
module Wrappers {

  /** An optional value. */
  datatype Option<+T> = None | Some(value: T)

  /** A computation that either produced a value or failed with an error;
      the model of Rust's `Result<T, E>`. */
  datatype Result<+T, +E> = Success(value: T) | Failure(error: E)

  /** A computation that either passed or failed with an error;
      the model of Rust's `Result<(), E>`. */
  datatype Outcome<+E> = Pass | Fail(error: E)
}

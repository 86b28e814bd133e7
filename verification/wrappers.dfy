/**
  The two sum types the model returns: `Option`, for a value that may be
  absent, as Rust's `Option`; and `Result`, for an outcome that is either a
  value or an error, as Rust's `Result`.
 */
module Wrappers {

  datatype Option<+T> = None | Some(value: T)

  datatype Result<+R, +E> = Success(value: R) | Failure(error: E)
}

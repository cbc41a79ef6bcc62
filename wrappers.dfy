/** Failure-carrying values: the model's stand-in for Rust's `Option`, and for
    the `Result` whose `unwrap()` would otherwise abort the process. */
module Wrappers {

  datatype Option<+T> = None | Some(value: T)

  datatype Result<+T, +E> = Success(value: T) | Failure(error: E)
}

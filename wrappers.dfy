/** Option and Result, the two failure-carrying types of the model:
    `Option` stands for Rust's `Option`, `Result` for the `errors::Result`
    that every fallible operation of a section returns. */
module Wrappers {

  datatype Option<+T> = None | Some(value: T)

  datatype Result<+R, +E> = Success(value: R) | Failure(error: E)
}

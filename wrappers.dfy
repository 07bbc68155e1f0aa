/** Failure-carrying return values used in place of Rust's `Option` and `panic!`. */
module Wrappers {

  datatype Option<T> = None | Some(value: T)

  /** The outcome of an operation that either produces a value or fails with an error. */
  datatype Result<T, E> = Ok(value: T) | Err(error: E)

  /** The outcome of an operation that produces no value but may fail. */
  datatype Outcome<E> = Pass | Fail(error: E)
}

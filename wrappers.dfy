/** Failure-compatible Option and Result types, standing for Rust's `Option`
    and `anyhow::Result`, so that `?` early returns can be written with `:-`. */
module Wrappers {

  datatype Option<+T> = None | Some(value: T) {

    /** `Option::ok_or_else`: a missing value becomes the given error. */
    function ToResult<E>(error: E): Result<T, E>
    {
      match this
      case Some(v) => Ok(v)
      case None => Err(error)
    }
  }

  datatype Result<+T, +E> = Ok(value: T) | Err(error: E) {

    predicate IsFailure() {
      Err?
    }

    function PropagateFailure<U>(): Result<U, E>
      requires Err?
    {
      Err(error)
    }

    function Extract(): T
      requires Ok?
    {
      value
    }
  }
}

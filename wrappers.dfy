/** Option and Result, the two sum types the Rust code returns everywhere. */
module Wrappers {

  datatype Option<+T> = None | Some(value: T)

  /** A Rust `Result`; `:-` propagates the error like Rust's `?`. */
  datatype Result<+T, +E> = Ok(value: T) | Err(error: E) {
    predicate IsFailure() {
      Err?
    }

    function PropagateFailure<U>(): Result<U, E>
      requires Err?
    {
      Err(error)
    }

    function Extract(): T
      requires Ok?
    {
      value
    }
  }
}

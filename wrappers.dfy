/** Option and Result, the failure-compatible wrappers used throughout the model. */
module Wrappers {

  /** A value that may be missing; a missing table cell (pandas NaN / NaT) is `None`. */
  datatype Option<+T> = None | Some(value: T)

  /** The outcome of an operation that can raise; `Err` stands for the raised exception. */
  datatype Result<+T, +E> = Ok(value: T) | Err(error: E) {

    predicate IsFailure() {
      Err?
    }

    function PropagateFailure<U>(): Result<U, E>
      requires Err?
    {
      Err(error)
    }

    function Extract(): T
      requires Ok?
    {
      value
    }
  }
}

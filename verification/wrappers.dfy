/** Failure-compatible wrappers shared by every module of the model. */
module Wrappers {

  /** A value that may be absent, as a Java `Optional`. */
  datatype Option<+T> = None | Some(value: T)

  /** The outcome of an operation that can fail; `Err` stands for a thrown exception. */
  datatype Result<+T, +E> = Ok(value: T) | Err(error: E) {

    predicate IsFailure() {
      Err?
    }

    function PropagateFailure<U>(): Result<U, E>
      requires Err?
    {
      Err(error)
    }

    function Extract(): T
      requires Ok?
    {
      value
    }
  }
}

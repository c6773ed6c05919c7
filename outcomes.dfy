/** Success/failure values shared by the modules of this model. */
module Outcomes {

  /** The value of an operation that either succeeds with a value or stops with an error. */
  datatype Result<+T, +E> = Ok(value: T) | Err(error: E) {

    predicate IsFailure() {
      Err?
    }

    function PropagateFailure<U>(): Result<U, E>
      requires Err?
    {
      Err(error)
    }

    function Extract(): T
      requires Ok?
    {
      value
    }
  }

  /** An optional value. */
  datatype Option<+T> = None | Some(value: T)
}

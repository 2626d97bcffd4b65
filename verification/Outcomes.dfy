/** Results of operations that the tools either complete or refuse with an exception. */
module Outcomes {

  datatype Option<+T> = None | Some(value: T)

  /** `Err` stands for a raised exception; it propagates through `:-`. */
  datatype Result<+T, +E> = Ok(value: T) | Err(error: E) {

    predicate IsFailure() {
      Err?
    }

    function PropagateFailure<U>(): Result<U, E>
      requires Err?
    {
      Err(error)
    }

    function Extract(): T
      requires Ok?
    {
      value
    }
  }
}

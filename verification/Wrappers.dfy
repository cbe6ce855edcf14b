/** Absent values and failures, as the modelled code returns and throws them. */
module Wrappers {

  datatype Option<+T> = None | Some(value: T)

  /** `Err` carries what the source throws. */
  datatype Result<+T, +E> = Ok(value: T) | Err(error: E) {

    predicate IsFailure() {
      Err?
    }

    function PropagateFailure<U>(): Result<U, E>
      requires Err?
    {
      Err(error)
    }

    function Extract(): T
      requires Ok?
    {
      value
    }
  }
}

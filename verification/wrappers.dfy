/** Failure-compatible result type used for the operations that raise in the
    original program (a Python exception becomes an `Err`). */
module Wrappers {

  /** The two exception kinds the scaling code can raise. */
  datatype Error = ValueError | ZeroDivisionError

  datatype Result<+T> = Ok(value: T) | Err(error: Error) {

    predicate IsFailure() {
      Err?
    }

    function PropagateFailure<U>(): Result<U>
      requires Err?
    {
      Err(error)
    }

    function Extract(): T
      requires Ok?
    {
      value
    }
  }

  datatype Option<+T> = None | Some(value: T)
}

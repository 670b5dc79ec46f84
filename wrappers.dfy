/** Result types shared by every module: the Python exceptions the modelled
    code can raise, and the exhaustion of a retry budget. */
module Wrappers {

  /** The exception kinds the modelled code raises, plus OutOfFuel for a
      retry loop whose attempt budget ran out. */
  datatype PyError =
    | KeyError
    | IndexError
    | ValueError
    | ZeroDivisionError
    | AttributeError
    | OutOfFuel

  datatype Option<+T> = None | Some(value: T)

  /** A value or the exception that replaced it. */
  datatype Result<+T> = Ok(value: T) | Err(error: PyError) {
    predicate IsFailure() { Err? }

    function PropagateFailure<U>(): Result<U>
      requires Err?
    {
      Err(error)
    }

    function Extract(): T
      requires Ok?
    {
      value
    }
  }

  /** The outcome of an operation that only changes state. */
  datatype Outcome = Pass | Fail(error: PyError)
}

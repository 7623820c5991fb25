/** Option and Result types shared by every module of the model. */
module Wrappers {

  /** A value that may be absent: the model of a C# nullable reference or `default` span. */
  datatype Option<+T> = None | Some(value: T) {
    /** The `??` operator: the value, or `default` when absent. */
    function GetOr(default: T): T {
      match this
      case Some(v) => v
      case None => default
    }
  }

  /** The outcome of an operation that the source ends with `throw` on failure. */
  datatype Result<+T, +E> = Ok(value: T) | Err(error: E) {
    predicate IsFailure() {
      Err?
    }

    function PropagateFailure<U>(): Result<U, E>
      requires Err?
    {
      Err(error)
    }

    function Extract(): T
      requires Ok?
    {
      value
    }
  }
}

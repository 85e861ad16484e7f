/** Failure-carrying datatypes shared by every module of the model.
    `Option<T>` stands for a Java reference that may be `null`;
    `Result<T>` stands for a computation that may throw, with the
    exception named by `Exception`. */
module Wrappers {

  /** A Java reference: `None` is `null`. */
  datatype Option<+T> = None | Some(value: T) {

    function GetOr(default: T): T {
      match this
      case Some(v) => v
      case None => default
    }
  }

  /** The Java exception classes the modelled code can raise. */
  datatype Exception =
    | RuntimeException(message: string)
    | IllegalStateException(message: string)
    | IndexOutOfBounds
    | NullPointer
    | NumberFormat

  /** Either a value or the exception thrown instead of returning one. */
  datatype Result<+T> = Ok(value: T) | Err(error: Exception) {

    predicate IsFailure() {
      Err?
    }

    function PropagateFailure<U>(): Result<U>
      requires Err?
    {
      Err(error)
    }

    function Extract(): T
      requires Ok?
    {
      value
    }
  }
}

/** Failure-compatible wrappers used for the source's nullable results and thrown exceptions. */
module Wrappers {

  /** An optional value: the source's `null` / `T?` results. */
  datatype Option<+T> = None | Some(value: T) {

    predicate IsFailure() {
      None?
    }

    function PropagateFailure<U>(): Option<U>
      requires None?
    {
      None
    }

    function Extract(): T
      requires Some?
    {
      value
    }

    /** The value, or `default` when there is none */
    function GetOr(default: T): T {
      match this
      case Some(v) => v
      case None => default
    }
  }

  /** Either a computed value or the exception the source throws instead. */
  datatype Result<+R, +E> = Success(value: R) | Failure(error: E) {

    predicate IsFailure() {
      Failure?
    }

    function PropagateFailure<U>(): Result<U, E>
      requires Failure?
    {
      Failure(error)
    }

    function Extract(): R
      requires Success?
    {
      value
    }
  }

  /** The exceptions the modelled code can throw, named after their .NET types. */
  datatype Exception =
    | ArgumentException(message: string)
    | ArgumentOutOfRangeException
    | IndexOutOfRangeException
}

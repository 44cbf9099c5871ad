/** Failure-compatible wrappers shared by every module: a nullable value and
    the outcome of a computation that may throw one of the JVM exceptions the
    modelled code can raise. */
module Base {

  /** A Kotlin/Java nullable value. */
  datatype Option<+T> = None | Some(value: T) {

    /** The value, or `default` when null (Kotlin's `?:`). */
    function GetOr(default: T): T {
      match this
      case Some(v) => v
      case None => default
    }
  }

  /** The exceptions the modelled code can throw. */
  datatype Exception =
    | NumberFormatException(input: string)
    | IndexOutOfBoundsException(index: int)
    | NullPointerException
    | IllegalArgumentException(setting: int)
    | UnknownCriterionException(identifier: string)
    | RuntimeException(message: string)

  /** A value, or the exception that was thrown instead. */
  datatype Result<+T> = Success(value: T) | Failure(error: Exception) {

    predicate IsFailure() {
      Failure?
    }

    function PropagateFailure<U>(): Result<U>
      requires Failure?
    {
      Failure(error)
    }

    function Extract(): T
      requires Success?
    {
      value
    }
  }
}

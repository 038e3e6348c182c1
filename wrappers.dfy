/** Failure-carrying datatypes used in place of Java's null returns and exceptions. */
module Wrappers {

  /** A value that may be absent (Java's null). */
  datatype Option<+T> = None | Some(value: T)

  /** The outcome of an operation that yields a value or throws with a message. */
  datatype Result<+T, +E> = Success(value: T) | Failure(error: E) {

    /** The carried value, or `default` when the operation failed. */
    function GetOr(default: T): T
    {
      match this
      case Success(v) => v
      case Failure(_) => default
    }

    /** Forgets the value and keeps only whether, and why, the operation failed. */
    function ToOutcome(): Outcome<E>
    {
      match this
      case Success(_) => Pass
      case Failure(e) => Fail(e)
    }
  }

  /** The outcome of a void operation that may throw with a message. */
  datatype Outcome<+E> = Pass | Fail(error: E)
}

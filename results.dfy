/** Failure-carrying values used in place of Java's null references and exceptions. */
module Results {

  /** A value that may be absent (a nullable reference, or java.util.Optional). */
  datatype Option<+T> = None | Some(value: T)

  /** Either the value an operation returns or the exception it throws. */
  datatype Result<+T, +E> = Success(value: T) | Failure(error: E)

  /** A check that either passes or throws. */
  datatype Outcome<+E> = Pass | Fail(error: E)
}

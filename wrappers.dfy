/** Failure-carrying datatypes used in place of Java's null and exceptions. */
module Wrappers {

  /** `None` stands for a Java `null` reference. */
  datatype Option<+T> = None | Some(value: T)

  /** The value a Java method returns, or the exception it throws. */
  datatype Result<+R, +E> = Success(value: R) | Failure(error: E)

  /** The outcome of a `void` Java method: it returns, or it throws. */
  datatype Outcome<+E> = Pass | Fail(error: E)
}

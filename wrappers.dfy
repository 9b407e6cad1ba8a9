/** Failure-compatible result types used in place of Java's null returns and thrown exceptions. */
module Wrappers {

  /** An optional value: `java.util.Optional` and nullable references. */
  datatype Option<+T> = None | Some(value: T)

  /** A value or the error that a Java method would have thrown instead of returning it. */
  datatype Result<+R, +E> = Success(value: R) | Failure(error: E)

  /** The outcome of a `void` Java method: it returns normally or throws `error`. */
  datatype Outcome<+E> = Pass | Fail(error: E)
}

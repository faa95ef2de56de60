/** Failure-carrying values used in place of Java's null references and exceptions. */
module Results {

  /** A value that may be absent (Java's null). */
  datatype Option<+T> = None | Some(value: T)

  /** The outcome of an operation that either yields a value or throws an error. */
  datatype Result<+T, +E> = Ok(value: T) | Err(error: E)
}

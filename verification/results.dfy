/** Failure-carrying result types shared by the OCSP verifier and the module worker. */
module Results {

  /** A value that may be absent; stands in for a Java reference that may be null. */
  datatype Option<+T> = None | Some(value: T)

  /** A computed value or the error that prevented it (a thrown exception in the source). */
  datatype Result<+T, +E> = Success(value: T) | Failure(error: E)

  /** The outcome of a check that returns nothing on success (a `void` method that may throw). */
  datatype Outcome<+E> = Pass | Fail(error: E)
}

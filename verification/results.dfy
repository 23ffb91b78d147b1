/** Failure-carrying values used where a Java argument may be null or a method throws. */
module Results {

  /** A value that may be absent; `None` stands for a Java `null` reference. */
  datatype Option<+T> = None | Some(value: T)

  /** The outcome of an operation that either produces a value or throws an exception. */
  datatype Result<+R, +E> = Success(value: R) | Failure(error: E)
}

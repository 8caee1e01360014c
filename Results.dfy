/** Optional values (a Java reference that may be null) and success-or-error
    results (a Java call that may throw). */
module Results {

  datatype Option<+T> = None | Some(value: T)

  datatype Result<+T, +E> = Success(value: T) | Failure(error: E)

  /** The outcome of a call that returns nothing but may throw. */
  datatype Outcome<+E> = Done | Thrown(error: E)
}

/** Failure-carrying wrappers used by every other module. */
module Results {

  /** A value that may be absent (a collaborator that can fail to answer). */
  datatype Option<+T> = None | Some(value: T)

  /** The value of a call that either returns or throws. */
  datatype Result<+T, +E> = Success(value: T) | Failure(error: E)

  /** The value of a check that either passes silently or throws. */
  datatype Outcome<+E> = Pass | Fail(error: E)
}

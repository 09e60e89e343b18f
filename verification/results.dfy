/** Failure-carrying wrappers shared by every module of the model. */
module Results {

  /** An optional value: `OptionalArg` and the loader's `Option` both map here. */
  datatype Option<+T> = None | Some(value: T)

  /** The outcome of a fallible computation that yields a value. */
  datatype Result<+T, +E> = Success(value: T) | Failure(error: E)

  /** The outcome of a fallible computation that yields nothing (`Result<(), E>`). */
  datatype Outcome<+E> = Pass | Fail(error: E)
}

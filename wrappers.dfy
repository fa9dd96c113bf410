/** Failure-carrying result types shared by the whole model: Java's null becomes
    None, an exception or an exitWithMessage becomes a Failure. */
module Wrappers {

  datatype Option<+T> = None | Some(value: T)

  datatype Result<+R, +E> = Success(value: R) | Failure(error: E)

  /** The outcome of a command that returns nothing on success. */
  datatype Outcome<+E> = Pass | Fail(error: E)
}

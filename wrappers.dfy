/** Failure-carrying result types shared by both scripts' models. */
module Wrappers {

  /** A value that may be absent: Python's `None` or a missing optional regex group. */
  datatype Option<+T> = None | Some(value: T)

  /** The outcome of a step that can raise: `Failure` carries what went wrong. */
  datatype Result<+R, +E> = Success(value: R) | Failure(error: E)
}

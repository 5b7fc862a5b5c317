/** Small failure-carrying datatypes shared by every module of the model.
    `Option` stands for a Java reference that may be null; `Result` for a call
    that may end in a RuntimeException instead of returning. */
module Wrappers {

  /** A possibly-null reference: `None` is Java's `null`. */
  datatype Option<+T> = None | Some(value: T)

  /** The outcome of a call that may throw: `Failure` carries the exception kind. */
  datatype Result<+R, +E> = Success(value: R) | Failure(error: E)
}

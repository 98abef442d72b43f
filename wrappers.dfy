/** Option and Result: Java's null returns and thrown exceptions, as values. */
module Wrappers {

  /** `None` stands for Java's `null`. */
  datatype Option<+T> = None | Some(value: T)

  /** `Failure` stands for an exception thrown to the caller. */
  datatype Result<+R, +E> = Success(value: R) | Failure(error: E)
}

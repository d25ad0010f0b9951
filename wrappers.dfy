/** Optional values and results, standing for Java's `Optional`, `null` and thrown exceptions. */
module Wrappers {

  /** `None` stands for an absent value: Java's `Optional.empty()` or a `null` reference. */
  datatype Option<+T> = None | Some(value: T)

  /** The outcome of an operation that either returns a value or throws. */
  datatype Result<+R, +E> = Success(value: R) | Failure(error: E)
}

/** Option and Result, the failure-compatible shapes the rest of the model returns
    where the source returns None or raises. */
module Wrappers {

  /** `None` stands for Python's None. */
  datatype Option<+T> = None | Some(value: T)

  /** `Failure` stands for an exception the source lets escape. */
  datatype Result<+T, +E> = Success(value: T) | Failure(error: E)
}

/** Option and result types shared by the model's modules. */
module Wrappers {

  /** A value that may be absent, as Python's `None`. */
  datatype Option<+T> = None | Some(value: T)

  /** The outcome of an operation that either succeeds with a value or is
      rejected with an error (the source's warning dialogs and early returns). */
  datatype Result<+T, +E> = Success(value: T) | Failure(error: E)
}

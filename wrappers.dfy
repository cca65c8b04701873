/** Option and Result values for the model's absent values and error paths. */
module Wrappers {

  datatype Option<+T> = None | Some(value: T)

  /** A computation that either produced a value or failed with an error
      (in the source: a thrown exception or a rejected promise). */
  datatype Result<+R, +E> = Success(value: R) | Failure(error: E)
}

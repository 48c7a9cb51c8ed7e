/** Option and Result, the two failure-carrying shapes the rest of the model uses. */
module Wrappers {

  /** A nullable value: `null` in the stored row or the JSON body is `None`. */
  datatype Option<+T> = None | Some(value: T)

  /** The outcome of an operation that the source ends by returning or by throwing. */
  datatype Result<+R, +E> = Success(value: R) | Failure(error: E)
}

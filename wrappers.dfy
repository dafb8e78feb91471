/** Option and Result values for the pipeline's "no value" and error paths. */
module Wrappers {

  /** `None` stands for Python's `None`. */
  datatype Option<+T> = None | Some(value: T)

  /** A per-item outcome: a value, or the error that stopped that item. */
  datatype Result<+T, +E> = Success(value: T) | Failure(error: E)
}

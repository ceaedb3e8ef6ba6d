/** Option and Result datatypes shared by the modules of this model. */
module Wrappers {

  /** An optional value: `None` stands for JavaScript's `undefined`. */
  datatype Option<+T> = None | Some(value: T)

  /** Either a value or the error a JavaScript handler would throw. */
  datatype Result<+T, +E> = Success(value: T) | Failure(error: E)
}

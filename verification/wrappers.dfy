/** Option and Result datatypes shared by the other modules. */
module Wrappers {

  /** An optional value. */
  datatype Option<+T> = None | Some(value: T)

  /** A value or the error that prevented computing it. */
  datatype Result<+R, +E> = Success(value: R) | Failure(error: E)
}

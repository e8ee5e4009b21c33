/** Small failure-carrying datatypes shared by the other modules. */
module Common {

  /** A value that may be absent (Python's `None`). */
  datatype Option<+T> = None | Some(value: T)

  /** Either a value or the error that interrupted the computation. */
  datatype Result<+T, +E> = Success(value: T) | Failure(error: E)
}

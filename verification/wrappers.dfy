/** Failure-carrying result type shared by the models: the source signals its
    logic errors and out-of-range accesses by throwing; here they are values. */
module Wrappers {

  /** Either a value or the error the source would have thrown. */
  datatype Result<+T, +E> = Success(value: T) | Failure(error: E)
}

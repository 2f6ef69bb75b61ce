/** The outcome of an operation that the source may abort with an exception. */
module Wrappers {

  datatype Result<+T, +E> = Success(value: T) | Failure(error: E)
}

/** The success-or-failure result used where the program can stop with a panic. */
module Wrappers {

  datatype Result<+T, +E> = Success(value: T) | Failure(error: E)
}

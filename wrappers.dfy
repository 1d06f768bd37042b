/** Success/failure values standing for the exceptions and early stops of the program. */
module Wrappers {

  datatype Result<+T, +E> = Success(value: T) | Failure(error: E)
}

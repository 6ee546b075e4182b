/** Result type for the operations that throw in `Life/Program.cs`. */
module Wrappers {

  /** Either a value or the exception the program would have raised instead. */
  datatype Result<+T, +E> = Success(value: T) | Failure(error: E)
}

/** Failure-carrying results and the .NET exceptions the modelled code raises. */
module Wrappers {

  datatype Option<T> = None | Some(value: T)

  /** The outcome of an operation that either succeeds with a value or throws. */
  datatype Result<T, E> = Success(value: T) | Failure(error: E)

  /** The .NET exception types the modelled code can throw. */
  datatype Exception =
    | OverflowException            // an array of negative length
    | ArgumentException            // crossing over genomes of different lengths
    | ArgumentOutOfRangeException  // Random.Next(1, 0)
    | IndexOutOfRangeException     // a Vector2 index other than 0 or 1
    | InvalidOperationException    // a list changed while a foreach walks it
}

/**
 * Value wrappers shared by the models: an optional value, and the outcome of
 * an operation that either returns a value or ends in one of the exceptions
 * the programs can raise.
 */
module Wrappers {

  datatype Option<T> = None | Some(value: T)

  /** The abnormal endings the modelled programs can reach. */
  datatype Exception =
    | IllegalArgument        // an explicit argument check throws
    | IndexOutOfBounds       // an array or string is indexed past its end
    | NegativeArraySize      // an array is created with a negative length
    | NonTermination         // the program would loop forever

  datatype Result<T> = Success(value: T) | Failure(error: Exception)
}

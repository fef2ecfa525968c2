/** Failure-carrying results shared by the classifier modules. */
module Wrappers {

  datatype Option<T> = None | Some(value: T)

  datatype Result<T, E> = Success(value: T) | Failure(error: E)

  /** The run-time errors the categorizer can raise instead of returning. */
  datatype Fault =
    | ZeroDivision     // a division whose divisor is 0 (Jaccard of two empty sets, a rate over 0 files)
    | EmptyMax         // `max` of an empty similarity list
    | IndexOutOfRange  // the winning index is past the end of the topic list
}

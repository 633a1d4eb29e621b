/** The result of an operation that C++ code can reject by throwing. */
module Outcomes {

  /** Ok, or the exception thrown: std::out_of_range or std::invalid_argument. */
  datatype Outcome<T> = Ok(value: T) | OutOfRange | InvalidArgument
}

/** Error values and the result types that stand for the exceptions the search server throws. */
module Wrappers {

  /** `InvalidArgument` is `std::invalid_argument`; `OutOfRange` is the `std::out_of_range`
      thrown by `std::map::at` for a missing key. */
  datatype Error = InvalidArgument | OutOfRange

  /** The value of an operation that either returns a value or throws. */
  datatype Result<+T> = Ok(value: T) | Err(error: Error)

  /** The value of an operation that returns nothing or throws. */
  datatype Outcome = Pass | Fail(error: Error)
}

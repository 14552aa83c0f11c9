/** Failure-compatible result type for the exceptions the search server throws.
    `std::invalid_argument` becomes `InvalidArgument`, `std::out_of_range`
    becomes `OutOfRange`; a call that throws leaves the server unchanged, so a
    failing operation simply returns `Err` and no new state. */
module Outcomes {

  datatype Error = InvalidArgument | OutOfRange

  datatype Result<+T> = Ok(value: T) | Err(error: Error) {

    predicate IsFailure() {
      Err?
    }

    function PropagateFailure<U>(): Result<U>
      requires Err?
    {
      Err(error)
    }

    function Extract(): T
      requires Ok?
    {
      value
    }
  }
}

/** Failure-compatible result types shared by the calculator and the repository. */
module Wrappers {

  /** An optional value; `None` stands for PHP's `null` ("not found"). */
  datatype Option<+T> = None | Some(value: T)

  /** Either a value, or the exception the PHP code would throw. */
  datatype Result<+T, +E> = Success(value: T) | Failure(error: E) {

    predicate IsFailure() {
      Failure?
    }

    function PropagateFailure<U>(): Result<U, E>
      requires Failure?
    {
      Failure(error)
    }

    function Extract(): T
      requires Success?
    {
      value
    }
  }
}

/** Failure-compatible wrappers used for every operation that can throw in the source. */
module Results {

  /** A value that may be absent (a null pointer, an exhausted reader). */
  datatype Option<+T> = None | Some(value: T)

  /** Either the value an operation returns or the error it throws. */
  datatype Result<+T, +E> = Success(value: T) | Failure(error: E) {

    predicate IsFailure() {
      Failure?
    }

    function PropagateFailure<U>(): Result<U, E>
      requires Failure?
    {
      Failure(error)
    }

    function Extract(): T
      requires Success?
    {
      value
    }
  }
}

/** Optional values and results, for the fields the program leaves null and the errors it throws. */
module Wrappers {
  datatype Option<T> = None | Some(value: T)

  /** A value, or the error the program would throw instead of returning one. */
  datatype Result<T> = Success(value: T) | Failure(error: string) {
    predicate IsFailure() {
      Failure?
    }

    function PropagateFailure<U>(): Result<U>
      requires Failure?
    {
      Failure(error)
    }

    function Extract(): T
      requires Success?
    {
      value
    }
  }
}

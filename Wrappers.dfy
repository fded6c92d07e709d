/** Option and Result values for the model's optional arguments and error paths. */
module Wrappers {

  /** A Python argument that may be `None`. */
  datatype Option<+T> = None | Some(value: T)

  /** The outcome of a step that may raise an exception. */
  datatype Result<+R, +E> = Success(value: R) | Failure(error: E) {
    predicate IsFailure() {
      Failure?
    }

    function PropagateFailure<U>(): Result<U, E>
      requires Failure?
    {
      Failure(error)
    }

    function Extract(): R
      requires Success?
    {
      value
    }
  }
}

/** `Option` stands for Python's `None`-or-value; `Result` for a call that
    either returns or raises `InvalidExperiment`. */
module Wrappers {

  datatype Option<+T> = None | Some(value: T)

  /** `Failure` carries what the Python code raises. The three members are
      the ones Dafny's `:-` operator looks for, so a loader that raises
      makes its caller raise too, as an uncaught exception does. */
  datatype Result<+T, +E> = Success(value: T) | Failure(error: E) {

    predicate IsFailure() {
      Failure?
    }

    function PropagateFailure<U>(): Result<U, E>
      requires Failure?
    {
      Failure(error)
    }

    function Extract(): T
      requires Success?
    {
      value
    }
  }
}

/** Failure-compatible wrappers used throughout the model: `Option` for values
    that may be undefined, `Result` for the translator's aborts (every `panic!`
    of the translator becomes a `Failure`). */
module Results {

  datatype Option<+T> = None | Some(value: T)

  datatype Result<+T, +E> = Success(value: T) | Failure(error: E) {

    predicate IsFailure() {
      Failure?
    }

    function PropagateFailure<U>(): Result<U, E>
      requires Failure?
    {
      Failure(error)
    }

    function Extract(): T
      requires Success?
    {
      value
    }
  }
}

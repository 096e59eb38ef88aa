/** Failure-carrying values: `Option` stands for a Python value that may be
    missing (a `None`, an `'NA'` cell, a lookup that would raise), `Result` for
    a parse that either yields a value or stops with a named error. */
module Results {

  datatype Option<+T> = None | Some(value: T)

  datatype Result<+T, +E> = Success(value: T) | Failure(error: E)
  {
    predicate IsFailure()
    {
      Failure?
    }

    function PropagateFailure<U>(): Result<U, E>
      requires Failure?
    {
      Failure(error)
    }

    function Extract(): T
      requires Success?
    {
      value
    }
  }
}

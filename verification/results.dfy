/** Failure-compatible wrappers shared by the model: `Option` for values that
    may be absent (a Go pointer that may be nil, an error that may be nil) and
    `Result` for operations that either produce a value or fail with an error. */
module Results {

  datatype Option<+T> = None | Some(value: T)

  datatype Result<+T, +E> = Ok(value: T) | Err(error: E) {

    predicate IsFailure() {
      Err?
    }

    function PropagateFailure<U>(): Result<U, E>
      requires Err?
    {
      Err(error)
    }

    function Extract(): T
      requires Ok?
    {
      value
    }
  }
}

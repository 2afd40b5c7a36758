/** Failure-compatible result types shared by every module. */
module Results {

  datatype Option<+T> = None | Some(value: T)

  /** A Rust `Result` or a Python value-or-exception. */
  datatype Result<+T, +E> = Ok(value: T) | Err(error: E) {
    predicate IsFailure() {
      Err?
    }

    function PropagateFailure<U>(): (r: Result<U, E>)
      requires Err?
    {
      Err(error)
    }

    function Extract(): T
      requires Ok?
    {
      value
    }
  }
}

/** Option and Result, the two wrappers the model uses for Rust's `Option` and `Result`. */
module Results {

  datatype Option<+T> = None | Some(value: T)

  /** `Ok` or `Err`; usable with `:-`, which mirrors Rust's `?`. */
  datatype Result<+T, +E> = Ok(value: T) | Err(error: E) {

    predicate IsFailure() {
      Err?
    }

    function PropagateFailure<U>(): Result<U, E>
      requires Err?
    {
      Err(error)
    }

    function Extract(): T
      requires Ok?
    {
      value
    }
  }
}

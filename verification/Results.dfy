/** The two carriers the sources use for absence and failure. */
module Results {

  datatype Option<+T> = None | Some(value: T)

  /** `Ok`/`Err`, usable with `:-` where the source uses `?`. */
  datatype Result<+T, +E> = Ok(value: T) | Err(error: E) {

    predicate IsFailure() {
      Err?
    }

    function PropagateFailure<U>(): Result<U, E>
      requires Err?
    {
      Err(error)
    }

    function Extract(): T
      requires Ok?
    {
      value
    }
  }
}

/** Failure-carrying result types used across the tree model. */
module Common {

  /** A value that may be absent (a Python attribute that is not set yet). */
  datatype Option<+T> = None | Some(value: T)

  /** The outcome of an operation whose source raises an exception on some inputs. */
  datatype Result<+T, +E> = Ok(value: T) | Err(error: E) {
    predicate IsFailure() {
      Err?
    }

    function PropagateFailure<U>(): Result<U, E>
      requires Err?
    {
      Err(error)
    }

    function Extract(): T
      requires Ok?
    {
      value
    }
  }
}

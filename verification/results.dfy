/**
  Failure-carrying wrappers used to model Java exceptions and `Optional`.
  `Result` and `Outcome` are failure-compatible, so a thrown exception
  propagates through `:-` the way it unwinds a Java method.
*/
module Results {

  /** An optional value (`java.util.Optional`). */
  datatype Option<+T> = None | Some(value: T)

  /** The outcome of a call that either returns a value or throws. */
  datatype Result<+T, +E> = Ok(value: T) | Err(error: E) {
    predicate IsFailure() {
      Err?
    }

    function PropagateFailure<U>(): Result<U, E>
      requires Err?
    {
      Err(error)
    }

    function Extract(): T
      requires Ok?
    {
      value
    }
  }

  /** The outcome of a `void` check that either returns or throws. */
  datatype Outcome<+E> = Pass | Fail(error: E) {
    predicate IsFailure() {
      Fail?
    }

    /** A failed check aborts the enclosing value-returning call with the same error. */
    function PropagateFailure<U>(): Result<U, E>
      requires Fail?
    {
      Err(error)
    }
  }
}

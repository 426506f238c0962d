/** Failure-compatible wrappers shared by the whole model, and the three ways the
    "Generate Report" action can abort. */
module Results {

  /** A value that may be absent: a missing table cell, a failed lookup, a
      collaborator that gave no answer. */
  datatype Option<+T> = None | Some(value: T)

  /** Why report generation stopped. Each of these is a Python exception in the
      script; none of them is caught, so each aborts the whole action. */
  datatype Error =
    | MalformedRange(token: string)       // `start, end = map(int, r.split('-'))` raised ValueError
    | SlideIndexOutOfRange(index: int)    // `slides[i - 1]` raised IndexError
    | SynthesisFailed(section: string)    // the language-model request raised

  /** The outcome of an operation that may raise one of the errors above. */
  datatype Result<+T> = Success(value: T) | Failure(error: Error) {

    predicate IsFailure() {
      Failure?
    }

    function PropagateFailure<U>(): Result<U>
      requires Failure?
    {
      Failure(error)
    }

    function Extract(): T
      requires Success?
    {
      value
    }
  }
}

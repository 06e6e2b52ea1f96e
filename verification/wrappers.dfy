/**
 * The two ways a step of the analyser can come up empty: a value that is not there (`null`,
 * `undefined`, a missing key, `NaN`) and a call that throws. `Result` supports `:-`, which
 * models a `try` block handing the first thrown error to its caller.
 */
module Wrappers {

  /** A value that may be absent: JavaScript's `null`/`undefined` or a failed lookup. */
  datatype Option<+T> = None | Some(value: T)

  /** Either a value or the message of a thrown error. */
  datatype Result<+R, +E> = Success(value: R) | Failure(error: E) {

    /** The call threw. */
    predicate IsFailure() {
      Failure?
    }

    /** Re-throws the same error from the enclosing call. */
    function PropagateFailure<U>(): Result<U, E>
      requires Failure?
    {
      Failure(error)
    }

    /** The value the call returned. */
    function Extract(): R
      requires Success?
    {
      value
    }
  }
}

/** Success-or-error results shared by every module of the model. */
module Wrappers {

  datatype Option<+T> = None | Some(value: T)

  /** The value of a conversion or a validation step, or the error it raises. */
  datatype Result<+T, +E> = Ok(value: T) | Err(error: E) {
    predicate IsFailure() {
      Err?
    }

    function PropagateFailure<U>(): Result<U, E>
      requires Err?
    {
      Err(error)
    }

    function Extract(): T
      requires Ok?
    {
      value
    }
  }

  /** A validator that returns nothing on success and raises on failure. */
  datatype Outcome<+E> = Pass | Fail(error: E)

  /**
   * Why a request gets no result: validation errors, which DRF answers with
   * HTTP 400, or an exception nothing catches, which ends in a server error.
   */
  datatype Refusal<+E> = Invalid(errors: E) | ServerError
}

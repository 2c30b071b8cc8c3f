/** Small failure-carrying datatypes shared by the whole model. */
module Outcomes {

  /** An optional value, as returned by a Python `dict.get`. */
  datatype Option<+T> = None | Some(value: T)

  /** The result of a call that may raise: either the value it returned or
      the message of the exception it raised (`str(e)` in Python). */
  datatype Outcome<+T> = Returned(value: T) | Raised(message: string)
}

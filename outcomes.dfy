/** Small value types shared by the credential policy model. */
module Outcomes {

  /** A value that may be absent, as a form field that was not submitted. */
  datatype Option<+T> = None | Some(value: T)

  /** The verdict of one validator: it passes, or it fails with one reason. */
  datatype Outcome<+E> = Pass | Fail(error: E)
}

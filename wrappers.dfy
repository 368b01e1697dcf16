/** The optional-value datatype shared by the hooks' models. */
module Wrappers {

  /** A value that may be absent: an unset environment variable, a string that is not a number. */
  datatype Option<+T> = None | Some(value: T)
}

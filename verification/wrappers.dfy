/** The optional value shared by the other modules. */
module Wrappers {

  /** A value that may be absent (a Python `None`, or a dict key that was never set). */
  datatype Option<+T> = None | Some(value: T)
}

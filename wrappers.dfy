/** An optional value, shared by the other modules. */
module Wrappers {

  /** A value that may be absent (a column that has not been attached yet). */
  datatype Option<+T> = None | Some(value: T)
}

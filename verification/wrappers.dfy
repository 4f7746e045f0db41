/** The optional-value type shared by the other modules. */
module Wrappers {

  /** A value that may be absent: a pending debounce timer, a missing URL parameter. */
  datatype Option<+T> = None | Some(value: T)
}

/** A value that may be absent: Go's nil fields and second results. */
module Wrappers {

  datatype Option<T> = None | Some(value: T)
}

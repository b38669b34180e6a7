/** A value that may be absent: a null pointer, a failed parse. */
module Wrappers {

  datatype Option<+T> = None | Some(value: T)
}

/** A value that may be absent: the null results and error returns of the C code. */
module Wrappers {

  datatype Option<+T> = None | Some(value: T)
}

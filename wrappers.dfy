/** A value that may be missing; here, the outcome of reading a file that may raise. */
module Wrappers {

  datatype Option<+T> = None | Some(value: T)
}

/** Small helper datatypes shared by every module. */
module Wrappers {
  /** A value that may be absent: C#'s `null`. */
  datatype Option<T> = None | Some(value: T)
}

/** A value that may be absent: a pointer that may be null, a result that may be missing. */
module Wrappers {

  datatype Option<T> = None | Some(value: T)
}

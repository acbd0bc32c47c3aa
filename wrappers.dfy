/** A value that may be absent: a C null pointer, an end() iterator, or a
    ReadFile call that failed. */
module Wrappers {

  datatype Option<T> = None | Some(value: T)
}

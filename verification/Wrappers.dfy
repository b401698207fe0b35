module Wrappers {

  /** A result that may be absent: a null pointer or a kernel panic in the source. */
  datatype Option<+T> = None | Some(value: T)
}

module Wrappers {
  /** A pointer or a lookup result that may be absent. */
  datatype Option<+T> = None | Some(value: T)
}

/** An optional value, for C pointers that may be null and for parses that may fail. */
module Wrappers {
  datatype Option<T> = None | Some(value: T)
}

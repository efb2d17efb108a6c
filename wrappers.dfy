/** The optional value used for calls that may fail and for parses that may not succeed. */
module Wrappers {
  datatype Option<T> = None | Some(value: T)
}

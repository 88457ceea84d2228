/** An optional value, shared by the codec and the rate parser. */
module Wrappers {
  datatype Option<T> = None | Some(value: T)
}

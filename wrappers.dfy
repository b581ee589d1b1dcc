/** An optional value: a lookup result that may be absent. */
module Wrappers {
  datatype Option<T> = None | Some(value: T)
}

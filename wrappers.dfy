/** An optional value: a field, a parse or a lookup that may come back empty. */
module Wrappers {
  datatype Option<+T> = None | Some(value: T)
}

/** The optional value a lookup by key returns when nothing matches. */
module Wrappers {
  datatype Option<+T> = None | Some(value: T)
}

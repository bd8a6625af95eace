/** The optional value used where the source returns "nothing" (no match, no request). */
module Wrappers {
  datatype Option<T> = None | Some(value: T)
}

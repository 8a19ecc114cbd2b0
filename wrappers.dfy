/** The optional value returned by lookups and by the pattern matchers. */
module Wrappers {
  datatype Option<+T> = None | Some(value: T)
}

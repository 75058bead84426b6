/** The optional-value type used for parse results. */
module Wrappers {
  datatype Option<+T> = None | Some(value: T)
}

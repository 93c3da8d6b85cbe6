/** The usual optional-value datatype, used for the parsers and for views that may be skipped. */
module Wrappers {
  datatype Option<+T> = None | Some(value: T)
}

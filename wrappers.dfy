/** The usual optional-value datatype, standing in for C's NULL-or-value fields. */
module Wrappers {
  datatype Option<+T> = None | Some(value: T)
}

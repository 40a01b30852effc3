/** A value that may be missing: a nil pointer, an empty result, SQL's NULL. */
module Wrappers {
  datatype Option<+T> = None | Some(value: T)
}

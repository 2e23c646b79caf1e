/** The optional-value type used for lookups that may find nothing and for
    inputs that may be missing. */
module Wrappers {

  datatype Option<+T> = None | Some(value: T)
}

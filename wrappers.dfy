/** Nullable columns of the store and optional values in general. */
module Wrappers {

  datatype Option<+T> = None | Some(value: T)
}

/** Go's nil: an absent error, handler, slice or map. */
module Wrappers {

  datatype Option<+T> = None | Some(value: T)
}

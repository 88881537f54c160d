/** Option stands in for a Java reference that may be null and for an absent table entry. */
module Wrappers {
  datatype Option<+T> = None | Some(value: T)
}

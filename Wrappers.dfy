/** The optional result of a lookup: Java's `null` for "not found" becomes None. */
module Wrappers {

  datatype Option<+T> = None | Some(value: T)
}

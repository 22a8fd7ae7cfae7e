/** Absence markers shared by the other modules: JavaScript's `null` and a missing key. */
module Wrappers {

  datatype Option<+T> = None | Some(value: T)
}

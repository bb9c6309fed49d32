/** The optional value used wherever the source returns a null reference. */
module Wrappers {
  datatype Option<+T> = None | Some(value: T)
}

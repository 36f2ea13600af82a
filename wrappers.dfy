/** The optional value that stands for a possibly null reference. */
module Wrappers {
  datatype Option<+T> = None | Some(value: T)
}

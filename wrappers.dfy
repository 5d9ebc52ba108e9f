/** The optional value used for results that may be absent (a NaN parse, a message not sent). */
module Wrappers {
  datatype Option<+T> = None | Some(value: T)
}

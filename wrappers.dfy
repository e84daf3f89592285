/** The optional value used wherever JavaScript would answer `undefined`. */
module Wrappers {
  datatype Option<+T> = None | Some(value: T)
}

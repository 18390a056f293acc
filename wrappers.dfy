/** The optional value that Swift writes as `T?`. */
module Wrappers {

  datatype Option<+T> = None | Some(value: T)
}

/** The optional value that the firmware signals with a `bool` result and an out-parameter. */
module Wrappers {

  datatype Option<+T> = None | Some(value: T)
}

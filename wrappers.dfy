/** The optional value used wherever the program may or may not have found something. */
module Wrappers {

  datatype Option<+T> = None | Some(value: T)
}

/** The optional value used wherever the Go code compares against nil. */
module Wrappers {

  datatype Option<+T> = None | Some(value: T)
}

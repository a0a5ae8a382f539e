/** The usual optional value: a record field that may be absent. */
module Wrappers {

  datatype Option<+T> = None | Some(value: T)
}

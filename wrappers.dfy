/** An optional value: a dictionary key that may be absent, a search that may fail. */
module Wrappers {

  datatype Option<+T> = None | Some(value: T)
}

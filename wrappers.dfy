/** The usual optional value, used for the page parser's "not found" results. */
module Wrappers {
  datatype Option<+T> = None | Some(value: T)
}

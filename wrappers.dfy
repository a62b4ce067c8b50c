/** Option, for the values the handlers may leave undefined. */
module Wrappers {

  datatype Option<+T> = None | Some(value: T)
}

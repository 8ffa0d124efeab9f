/** The optional value used for the module name of a snippet. */
module Wrappers {

  datatype Option<+T> = None | Some(value: T)
}

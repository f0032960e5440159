/** The optional value used for lookups and for external steps that may fail. */
module Wrappers {

  datatype Option<+T> = None | Some(value: T)
}

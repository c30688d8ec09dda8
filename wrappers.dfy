/** The optional value used for reads that may fail. */
module Wrappers {

  datatype Option<+T> = None | Some(value: T)
}

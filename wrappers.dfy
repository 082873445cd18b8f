/** The optional value used for "no match" results across the model. */
module Wrappers {

  datatype Option<+T> = None | Some(value: T)
}

/** The optional value used for the nullable results of the normaliser. */
module Wrappers {

  datatype Option<+T> = None | Some(value: T)
}

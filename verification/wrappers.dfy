/** The optional-value type shared by the link checker's modules. */
module Wrappers {

  datatype Option<+T> = None | Some(value: T)
}

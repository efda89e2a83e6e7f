/** The optional value shared by the catalog model and the client model. */
module Wrappers {
  datatype Option<+T> = None | Some(value: T)
}

/** The optional-value datatype used by the catalog lookup and by the store's view of its file. */
module Wrappers {

  datatype Option<+T> = None | Some(value: T)
}

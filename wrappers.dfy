/** The optional value the search and its collaborators return. */
module Wrappers {

  datatype Option<+T> = None | Some(value: T)
}

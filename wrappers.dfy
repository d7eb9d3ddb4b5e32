/** The optional value used for the `title?` and `url?` fields of a tab and for searches
    that may find nothing. */
module Wrappers {
  datatype Option<+T> = None | Some(value: T)
}

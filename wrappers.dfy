/** The optional value used for lookups that may find nothing (a search that finds no match). */
module Wrappers {
  datatype Option<+T> = None | Some(value: T)
}

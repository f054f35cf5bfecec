/** The optional value used for absent files, absent metadata and failed parses. */
module Wrappers {

  datatype Option<+T> = None | Some(value: T)
}

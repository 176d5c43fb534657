/** The optional value used for the cache's hit/miss answer and for parsing. */
module Wrappers {

  datatype Option<+T> = None | Some(value: T)
}

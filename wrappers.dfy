/** The optional value behind PHP's null and JavaScript's undefined. */
module Wrappers {

  datatype Option<+T> = None | Some(value: T)
}

/** The optional value the parsing functions return where Python raises or finds nothing. */
module Wrappers {
  datatype Option<+T> = None | Some(value: T)
}

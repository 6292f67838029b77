/** The optional value the parsers of this model return. */
module Wrappers {

  datatype Option<+T> = None | Some(value: T)
}

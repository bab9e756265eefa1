/** The optional value used by the parsers and searches of the other modules. */
module Wrappers {

  datatype Option<T> = None | Some(value: T)
}

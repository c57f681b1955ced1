/** The optional value that a regular-expression match attempt yields. */
module Wrappers {

  datatype Option<T> = None | Some(value: T)
}

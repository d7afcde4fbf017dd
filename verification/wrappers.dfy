/** The optional value that several of the modelled Go functions return in
    place of an `error` or an empty string. */
module Wrappers {
  datatype Option<+T> = None | Some(value: T)
}

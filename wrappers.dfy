/** The usual optional value: the scanner's "match of length n here, or none". */
module Wrappers {
  datatype Option<+T> = None | Some(value: T)
}

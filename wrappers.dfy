/** A value that may be absent: an element the page may lack, a prompt the
    visitor may cancel. */
module Wrappers {
  datatype Option<+T> = None | Some(value: T)
}

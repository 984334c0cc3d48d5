/** The optional value used where the source has a PHP `null`. */
module Wrappers {

  datatype Option<T> = None | Some(value: T)
}

/** The optional value used for links and for the result of `head` and `next`. */
module Wrappers {

  datatype Option<+T> = None | Some(value: T)
}

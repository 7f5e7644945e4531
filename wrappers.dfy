/** The optional value used where JavaScript has `undefined` or `null`. */
module Wrappers {

  datatype Option<+T> = None | Some(value: T)
}

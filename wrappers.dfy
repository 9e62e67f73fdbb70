/** The optional value used where the JavaScript code has `null` or `undefined`. */
module Wrappers {

  datatype Option<T> = None | Some(value: T)
}

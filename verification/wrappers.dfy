/** An optional value: `undefined` in the JavaScript source becomes `None`. */
module Wrappers {

  datatype Option<+T> = None | Some(value: T)
}

/** Option: the model of JavaScript's `null`/`undefined` next to a real value. */
module Wrappers {
  datatype Option<+T> = None | Some(value: T)
}

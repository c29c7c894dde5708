/** The usual optional value; `None` doubles as JavaScript's `undefined` and `NaN` where noted. */
module Wrappers {
  datatype Option<+T> = None | Some(value: T)
}

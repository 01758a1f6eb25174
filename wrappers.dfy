/** An optional value: the model's stand-in for JavaScript's NaN, `undefined` and "not found". */
module Wrappers {
  datatype Option<+T> = None | Some(value: T)
}

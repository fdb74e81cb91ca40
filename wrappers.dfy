/** The optional value used for "no card read", "no card tracked" and "no removal recorded". */
module Wrappers {
  datatype Option<+T> = None | Some(value: T)
}

/** The optional value used wherever the source can produce "nothing" (NaN, a failed lookup). */
module Wrappers {
  datatype Option<+T> = None | Some(value: T)
}

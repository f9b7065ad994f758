/** An optional value: the source's nil pointers and absent JSON members. */
module Wrappers {
  datatype Option<+T> = None | Some(value: T)
}

/** An optional value, used where the source reports "not found" or "nothing to take". */
module Wrappers {
  datatype Option<+T> = None | Some(value: T)
}

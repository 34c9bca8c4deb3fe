/** An optional value: the source's NULL, -1 and "not found" results. */
module Wrappers {
  datatype Option<+T> = None | Some(value: T)
}

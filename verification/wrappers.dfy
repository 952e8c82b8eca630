/** Small optional-value type shared by the scanners. */
module Wrappers {
  datatype Option<+T> = None | Some(value: T)
}

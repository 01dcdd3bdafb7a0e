/** A value that may be absent: the model of a TypeScript `T | null`. */
module Wrappers {
  datatype Option<+T> = None | Some(value: T)
}

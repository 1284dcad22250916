/** The Some/None datatype used for missing arguments and failed reads. */
module Wrappers {
  datatype Option<+T> = None | Some(value: T)
}

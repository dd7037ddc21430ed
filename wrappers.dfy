/** The source's nullable results (a container that may be missing, a port that may be absent). */
module Wrappers {
  datatype Option<+T> = None | Some(value: T)
}

/** The optional value used wherever the archived records and the write-batch carry a field that may be absent. */
module Wrappers {

  datatype Option<+T> = None | Some(value: T)
}

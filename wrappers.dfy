/** The optional value used wherever the extractor sees Python's `None`. */
module Wrappers {
  datatype Option<+T> = None | Some(value: T)
}

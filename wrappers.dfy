/** The absent-or-present value used for "missing" cells and for parsers that can fail. */
module Wrappers {
  datatype Option<+T> = None | Some(value: T)
}

/** The absent-or-present value used where the script answers `null` for a missing entry. */
module Wrappers {

  datatype Option<+T> = None | Some(value: T)
}

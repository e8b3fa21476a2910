/** The absent-or-present value used for the source's `null` fields and its "not found" results. */
module Wrappers {

  datatype Option<T> = None | Some(value: T)
}

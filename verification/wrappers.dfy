/** The absent-or-present value the node's optional-returning members use. */
module Wrappers {

  /** `None` plays the part of Swift's `nil`. */
  datatype Option<+T> = None | Some(value: T)
}

/** The optional value the controller's helpers return when they give up. */
module Wrappers {

  /** `None` stands for the `None` the controller's helpers return. */
  datatype Option<+T> = None | Some(value: T)
}

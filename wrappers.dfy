/** The optional-value datatype shared by the modules of the router model. */
module Wrappers {

  /** `None` plays the part of JavaScript's `null`/`undefined` results. */
  datatype Option<+T> = None | Some(value: T)
}

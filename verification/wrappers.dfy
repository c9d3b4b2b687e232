/** The optional-value datatype shared by the other modules. */
module Wrappers {

  /** A value that may be missing: `None` stands for JavaScript's `null`
      or `undefined` where the game code checks for one. */
  datatype Option<+T> = None | Some(value: T)
}

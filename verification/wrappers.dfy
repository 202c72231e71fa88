/** The optional value used where the source yields `undefined` for a missing entry. */
module Wrappers {

  /** `None` stands for JavaScript's `undefined` result of a failed lookup. */
  datatype Option<+T> = None | Some(value: T)
}

/** Small failure-compatible wrapper used across the model. */
module Wrappers {

  /** An optional value: `None` stands for a missing result (`npos`, `nullptr`, an absent key). */
  datatype Option<+T> = None | Some(value: T)
}

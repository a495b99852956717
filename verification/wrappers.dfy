/** The optional-value type used for Python's `None`-or-value results. */
module Wrappers {

  /** `None` stands for Python's `None` (or a failed `re.search`); `Some(v)` for a value. */
  datatype Option<+T> = None | Some(value: T)
}

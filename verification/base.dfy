/** Shared vocabulary: Python's `None`-or-value results, made explicit. */
module Base {

  /** A value that may be missing, as a Python function returning `None` or a value. */
  datatype Option<+T> = None | Some(value: T)
}

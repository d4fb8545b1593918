/** Optional values and the run-time errors the evaluation can raise. */
module Wrappers {

  /** Python's `None` or a value. */
  datatype Option<+T> = None | Some(value: T)

  /** A value, or an exception that nothing in the evaluation catches: the TypeError Python
      raises when `None` reaches an arithmetic operator (`2 * None`, `total += None`), or the
      ValueError numpy raises when asked to join arrays of different dimensions. */
  datatype Result<+T> = Ok(value: T) | TypeError | ValueError
}

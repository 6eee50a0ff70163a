/** Swift optionals and throwing results, as values. */
module Wrappers {

  /** Swift's `T?`. */
  datatype Option<+T> = None | Some(value: T)

  /** Swift's `a ?? b` when `b` is itself optional. */
  function OrElse<T>(o: Option<T>, alternative: Option<T>): Option<T>
  {
    if o.Some? then o else alternative
  }

  /** Swift's `a ?? b` when `b` is a plain value. */
  function GetOr<T>(o: Option<T>, default: T): T
  {
    if o.Some? then o.value else default
  }

  /** The outcome of a Swift `throws` function: a value, or the error it throws. */
  datatype Result<+R, +E> = Success(value: R) | Failure(error: E)
}

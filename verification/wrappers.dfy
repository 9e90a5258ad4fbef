/** Optional values and error results shared by every module. */
module Wrappers {

  /** A value that may be absent: Python's `None` versus a present value. */
  datatype Option<+T> = None | Some(value: T)

  /** The outcome of an operation that the source may abort by raising. */
  datatype Result<+T, +E> = Success(value: T) | Failure(error: E)

  /** The present value as a one-element sequence, or nothing. */
  function OptionSeq<T>(o: Option<T>): (r: seq<T>)
    ensures |r| <= 1
  {
    if o.Some? then [o.value] else []
  }
}

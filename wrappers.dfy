/** Values shared by the cache and the run-once guard: a value that may be
    absent, and what a call of a wrapped Python function does. */
module Wrappers {

  /** A docstring that may be missing, an attribute an object may not have. */
  datatype Option<X> = None | Some(value: X)

  /** What a wrapped function does when it runs: return a value or raise. */
  datatype Effect<R, E> = Returns(value: R) | Raises(error: E)
}

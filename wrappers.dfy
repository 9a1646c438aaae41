/** Small result types shared by the tree, the walkers and the validators. */
module Wrappers {

  /** Python's `x or None`. */
  datatype Option<T> = None | Some(value: T)

  /** A computation that either yields a value or raises a Python exception. */
  datatype Result<T, E> = Ok(value: T) | Err(error: E)

  /** An in-place operation that either completes or raises before mutating anything. */
  datatype Outcome<E> = Pass | Fail(error: E)

  /** The Python exceptions the modelled code can raise. */
  datatype Raised = ValueError | IndexError | AttributeError | KeyError | TypeError
}

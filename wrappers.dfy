/** The optional-value wrapper used for values the page may find missing. */
module Wrappers {

  /** A value that may be absent: a missing storage key, a null artwork URL. */
  datatype Option<+T> = None | Some(value: T)
}

/** Optional values and the error-carrying results that stand in for thrown
    JavaScript `Error`s. An error is represented by its message text, since the
    message is all that callers of the modelled code ever observe. */
module Wrappers {

  /** A value that may be absent (`undefined` in the source). */
  datatype Option<+T> = None | Some(value: T)

  /** The value of an operation that either returns or throws an error. */
  datatype Result<+T> = Ok(value: T) | Err(error: string)

  /** The result of an operation that returns nothing or throws an error. */
  datatype Outcome = Pass | Fail(error: string)

  /** True when `p` is a prefix of `s`. */
  predicate StartsWith(s: string, p: string) {
    |p| <= |s| && s[..|p|] == p
  }

  /** True when `p` is a suffix of `s`. */
  predicate EndsWith(s: string, p: string) {
    |p| <= |s| && s[|s| - |p|..] == p
  }
}

/** Optional values, results that carry the reason of a raised exception, and two helpers used throughout. */
module Wrappers {
  datatype Option<+A> = None | Some(value: A)

  datatype Result<+A, +E> = Ok(value: A) | Err(reason: E)

  function Min(a: int, b: int): int { if a <= b then a else b }

  predicate StartsWith(s: string, p: string) { |p| <= |s| && s[..|p|] == p }
}

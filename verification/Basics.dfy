/** Optional values and small functions every part uses. */
module Basics {
  datatype Option<+T> = None | Some(value: T)

  function Min(a: int, b: int): int { if a < b then a else b }

  function Max(a: int, b: int): int { if a < b then b else a }

  /** The first `n` elements of `s`, or all there are. */
  function Take<T>(s: seq<T>, n: int): (r: seq<T>)
    ensures |r| == Max(0, Min(n, |s|))
  {
    s[..Max(0, Min(n, |s|))]
  }
}

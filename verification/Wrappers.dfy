/** Small types and functions shared by the other modules. */
module Wrappers {

  /** The source's nil errors and "value, ok" results. */
  datatype Option<+T> = None | Some(value: T)

  /** The first `n` elements, or all of them when there are fewer. */
  function First<T>(s: seq<T>, n: nat): (r: seq<T>)
    ensures r <= s && |r| == if |s| <= n then |s| else n
    ensures |s| <= n ==> r == s
  {
    if |s| <= n then s else s[..n]
  }
}

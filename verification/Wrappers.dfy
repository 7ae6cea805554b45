module Wrappers {
  datatype Option<T> = None | Some(value: T)

  // n copies of x.
  function Filled<T>(n: nat, x: T): (s: seq<T>)
    ensures |s| == n
  {
    seq(n, i => x)
  }
}

/** Result types and the C data the modules share. */
module Wrappers {
  datatype Option<+T> = None | Some(value: T)
}

module Bytes {
  type byte = x: nat | x < 256

  type text = seq<byte>

  const NEWLINE: byte := 10

  /** What a NUL-terminated buffer holds before its terminator. */
  type cstring = s: seq<byte> | forall i :: 0 <= i < |s| ==> s[i] != 0
}

/** Real numbers in the place of floating point. */
module Reals {
  const EPSILON: real := 0.0001

  function Abs(x: real): (r: real)
    ensures r >= 0.0
  {
    if x < 0.0 then -x else x
  }
}

module Sequences {
  function Repeat<T>(x: T, n: nat): (s: seq<T>)
    ensures |s| == n && forall i :: 0 <= i < n ==> s[i] == x
  {
    seq(n, _ => x)
  }
}

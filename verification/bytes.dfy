/** Byte strings as the manager handles them (Python `bytearray`). */
module Bytes {

  /** One 8-bit symbol: the manager always works in GF(2^8). */
  newtype byte = x: int | 0 <= x < 256

  /** Every byte of `s` is zero. */
  predicate AllZero(s: seq<byte>)
  {
    forall i :: 0 <= i < |s| ==> s[i] == 0
  }

  /** `n` zero bytes: Python's `bytearray(n)`. */
  function Zeros(n: nat): (r: seq<byte>)
    ensures |r| == n
    ensures AllZero(r)
  {
    seq(n, i => 0 as byte)
  }

  /** `s[i:]` in Python: the bytes from index `i` on, empty once `i` is past the end. */
  function Drop<T>(s: seq<T>, i: nat): (r: seq<T>)
    ensures i <= |s| ==> |r| == |s| - i && forall j :: 0 <= j < |r| ==> r[j] == s[i + j]
    ensures i > |s| ==> r == []
  {
    if i <= |s| then s[i..] else []
  }

  /** The larger of `a` and `b`. */
  function Max(a: int, b: int): (r: int)
  {
    if a < b then b else a
  }
}

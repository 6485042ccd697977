/** Bytes and C strings. */
module Bytes {
  type byte = x: int | 0 <= x < 256

  /** Contents of a `std::string`, or of a C string without its terminator. */
  type Str = seq<byte>

  /** `n` zero bytes, as `memset`, `std::fill` or `calloc` leave them. */
  function Zeros(n: nat): (s: seq<byte>)
    ensures |s| == n && forall i :: 0 <= i < n ==> s[i] == 0
  {
    seq(n, _ => 0)
  }

  predicate NulFree(s: Str) {
    forall i :: 0 <= i < |s| ==> s[i] != 0
  }
}

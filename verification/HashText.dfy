/** Digests as text: `output_hex` and `hash_sha256`. */
module HashText {
  import opened Bytes
  import opened Sha256Spec

  /** A lower-case hexadecimal digit. */
  function HexDigit(x: int): byte
    requires 0 <= x < 16
  {
    if x < 10 then 48 + x else 87 + x
  }

  /** Two digits for each byte. */
  function Hex(s: seq<byte>): (t: Str)
    ensures |t| == 2 * |s|
  {
    if s == [] then [] else Hex(s[..|s| - 1]) + [HexDigit(s[|s| - 1] / 16), HexDigit(s[|s| - 1] % 16)]
  }

  /** The string that `hash_sha256` returns. */
  function HashSha256(s: Str): (t: Str)
    ensures |t| == 64
  {
    Hex(Sha256(s))
  }

  /** `output_hex`: hexadecimal, width 2, filled with zeros. */
  method OutputHex(bytes: seq<byte>) returns (t: Str)
    ensures t == Hex(bytes)
  {
    t := [];
    for i := 0 to |bytes|
      invariant t == Hex(bytes[..i])
    {
      assert bytes[..i + 1][..i] == bytes[..i];
      var digits := if bytes[i] < 16 then [HexDigit(bytes[i])] else [HexDigit(bytes[i] / 16), HexDigit(bytes[i] % 16)];
      // std::setfill('0') completes a single digit to the width.
      t := t + if |digits| < 2 then [48] + digits else digits;
    }
    assert bytes[..|bytes|] == bytes;
  }

  /** The text determines the bytes, so equal hash strings mean equal digests. */
  lemma {:induction false} HexInjective(x: seq<byte>, y: seq<byte>)
    requires Hex(x) == Hex(y)
    ensures x == y
  {
    assert |x| == |y|;
    if x != [] {
      var n := |x| - 1;
      assert Hex(x)[..2 * n] == Hex(x[..n]) && Hex(y)[..2 * n] == Hex(y[..n]);
      HexInjective(x[..n], y[..n]);
      assert Hex(x)[2 * n] == HexDigit(x[n] / 16) && Hex(x)[2 * n + 1] == HexDigit(x[n] % 16);
      assert Hex(y)[2 * n] == HexDigit(y[n] / 16) && Hex(y)[2 * n + 1] == HexDigit(y[n] % 16);
      assert x[n] == y[n];
    }
  }

  const HEX_DIGITS := "0123456789abcdef"

  /** Every byte as its two digits, the higher one first. */
  lemma {:induction false} HexAsPrinted(s: seq<byte>, i: nat)
    requires i < |s|
    ensures Hex(s)[2 * i] == HEX_DIGITS[s[i] / 16] as int && Hex(s)[2 * i + 1] == HEX_DIGITS[s[i] % 16] as int
  {
    hide HexDigit;
    if i < |s| - 1 {
      HexAsPrinted(s[..|s| - 1], i);
    } else {
      DigitAsPrinted(s[i] / 16);
      DigitAsPrinted(s[i] % 16);
    }
  }

  lemma DigitAsPrinted(x: int)
    requires 0 <= x < 16
    ensures HexDigit(x) == HEX_DIGITS[x] as int
  {
  }

  lemma {:induction false} HexIsNulFree(s: seq<byte>)
    ensures NulFree(Hex(s))
  {
    if s != [] {
      HexIsNulFree(s[..|s| - 1]);
    }
  }

  lemma HashIsNulFree(s: Str)
    ensures NulFree(HashSha256(s))
  {
    HexIsNulFree(Sha256(s));
  }

  /** Two different strings with one hash. */
  predicate Collision(x: Str, y: Str) {
    x != y && HashSha256(x) == HashSha256(y)
  }

  /** A collision of hash strings is a collision of SHA-256 itself. */
  lemma CollisionOfDigests(x: Str, y: Str)
    requires Collision(x, y)
    ensures x != y && Sha256(x) == Sha256(y)
  {
    HexInjective(Sha256(x), Sha256(y));
  }
}

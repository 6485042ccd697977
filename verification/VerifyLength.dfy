/** The Verifier's size of a decoded signature: `calcDecodeLength`. */
module VerifyLength {
  import opened Bytes
  import opened Bits
  import opened Base64Spec

  /** Computed in `size_t`: both the product and the difference wrap at 2^64. */
  function CalcDecodeLength(t: Str): (n: nat)
    requires |t| >= 2 || (|t| == 1 && t[0] != PAD)
  {
    var len := |t|;
    var padding := if t[len - 1] == PAD && t[len - 2] == PAD then 2 else if t[len - 1] == PAD then 1 else 0;
    (len * 3 % 0x1_0000_0000_0000_0000 / 4 - padding) % 0x1_0000_0000_0000_0000
  }

  /** For a non-empty encoding it is the exact number of encoded bytes. */
  lemma DecodeLengthIsExact(s: seq<byte>)
    requires s != [] && 3 * |Encode(s)| < 0x1_0000_0000_0000_0000
    ensures |Encode(s)| >= 2 && CalcDecodeLength(Encode(s)) == |s|
  {
    hide Encode, PadCount;
    var t, len := Encode(s), |Encode(s)|;
    EncodedLength(s);
    PadTail(s);
    LengthArithmetic(|s|);
    assert len * 3 % 0x1_0000_0000_0000_0000 == len * 3;
  }

  /** Where an encoding has pads. */
  lemma PadTail(s: seq<byte>)
    requires s != []
    ensures var t, len := Encode(s), |Encode(s)|;
            && len >= 2
            && (t[len - 1] == PAD <==> PadCount(|s|) >= 1)
            && (t[len - 2] == PAD <==> PadCount(|s|) == 2)
  {
    hide Sextets, IndexOf, PrefixLength;
    EncodedLength(s);
    EncodingPrefix(s);
    PadIsOutside();
    assert forall i :: 0 <= i < SextetCount(|s|) ==> IndexOf(Encode(s)[i]) >= 0;
  }

  lemma LengthArithmetic(n: nat)
    ensures (n + 2) / 3 * 4 * 3 / 4 == n + PadCount(n) && PadCount(n) <= 2
  {
    var g, r := n / 3, n % 3;
    DivModUnique(n + 2, 3, if r == 0 then g else g + 1, if r == 0 then 2 else r - 1);
    DivModUnique((n + 2) / 3 * 4 * 3, 4, (n + 2) / 3 * 3, 0);
  }
}

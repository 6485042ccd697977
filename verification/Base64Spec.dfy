/**
 * Base64 as section 4 of RFC 4648 describes it: the bytes form one stream of bits, most significant bit
 * first; the stream, zero-extended, is cut into sextets; each sextet selects a character of the alphabet.
 */
module Base64Spec {
  import opened Bits
  import opened Bytes

  type sextet = x: int | 0 <= x < 64
  type bit = x: int | 0 <= x < 2

  const PAD: byte := 61   // '='

  /** Table 1 of RFC 4648. */
  function Alphabet(q: sextet): byte {
    if q < 26 then 65 + q           // 'A'..'Z'
    else if q < 52 then 97 + q - 26 // 'a'..'z'
    else if q < 62 then 48 + q - 52 // '0'..'9'
    else if q == 62 then 43         // '+'
    else 47                         // '/'
  }

  const UPPER := "ABCDEFGHIJKLMNOPQRSTUVWXYZ"
  const LOWER := "abcdefghijklmnopqrstuvwxyz"
  const DIGITS := "0123456789"

  /** The characters as RFC 4648 prints them. */
  lemma AlphabetAsPrinted(q: sextet)
    ensures q < 26 ==> Alphabet(q) == UPPER[q] as int
    ensures 26 <= q < 52 ==> Alphabet(q) == LOWER[q - 26] as int
    ensures 52 <= q < 62 ==> Alphabet(q) == DIGITS[q - 52] as int
    ensures Alphabet(62) == '+' as int && Alphabet(63) == '/' as int && PAD == '=' as int
  {
  }

  predicate InAlphabet(c: byte) {
    exists q: sextet :: Alphabet(q) == c
  }

  /** The place of a character in the alphabet, or -1. */
  function IndexOf(c: byte): (r: int)
    ensures -1 <= r < 64
    ensures r >= 0 ==> Alphabet(r) == c
    ensures r < 0 ==> !InAlphabet(c)
  {
    if 65 <= c <= 90 then c - 65
    else if 97 <= c <= 122 then c - 97 + 26
    else if 48 <= c <= 57 then c - 48 + 52
    else if c == 43 then 62
    else if c == 47 then 63
    else -1
  }

  /** Bit k of a byte, counted from the most significant. */
  function ByteBit(b: byte, k: nat): bit
    requires k < 8
  {
    if k == 0 then b / 128 % 2 else if k == 1 then b / 64 % 2 else if k == 2 then b / 32 % 2
    else if k == 3 then b / 16 % 2 else if k == 4 then b / 8 % 2 else if k == 5 then b / 4 % 2
    else if k == 6 then b / 2 % 2 else b % 2
  }

  /** Bit k of a sextet, counted from the most significant. */
  function SextetBit(q: sextet, k: nat): bit
    requires k < 6
  {
    if k == 0 then q / 32 % 2 else if k == 1 then q / 16 % 2 else if k == 2 then q / 8 % 2
    else if k == 3 then q / 4 % 2 else if k == 4 then q / 2 % 2 else q % 2
  }

  /** Bit k of the stream that the bytes form; zero past the end. */
  function StreamBit(s: seq<byte>, k: nat): bit {
    if k / 8 < |s| then ByteBit(s[k / 8], k % 8) else 0
  }

  /** Bit k of the stream that the sextets form; zero past the end. */
  function SextetStreamBit(q: seq<sextet>, k: nat): bit {
    if k / 6 < |q| then SextetBit(q[k / 6], k % 6) else 0
  }

  function FromBits6(b0: bit, b1: bit, b2: bit, b3: bit, b4: bit, b5: bit): sextet {
    32 * (b0 as int) + 16 * (b1 as int) + 8 * (b2 as int) + 4 * (b3 as int) + 2 * (b4 as int) + (b5 as int)
  }

  function FromBits8(b0: bit, b1: bit, b2: bit, b3: bit, b4: bit, b5: bit, b6: bit, b7: bit): byte {
    128 * (b0 as int) + 64 * (b1 as int) + 32 * (b2 as int) + 16 * (b3 as int) +
    8 * (b4 as int) + 4 * (b5 as int) + 2 * (b6 as int) + (b7 as int)
  }

  /** Sextet i of the bit stream of some bytes. */
  function Sextet(s: seq<byte>, i: nat): sextet {
    FromBits6(StreamBit(s, 6 * i), StreamBit(s, 6 * i + 1), StreamBit(s, 6 * i + 2),
              StreamBit(s, 6 * i + 3), StreamBit(s, 6 * i + 4), StreamBit(s, 6 * i + 5))
  }

  /** Byte i of the bit stream of some sextets. */
  function Octet(q: seq<sextet>, i: nat): byte {
    FromBits8(SextetStreamBit(q, 8 * i), SextetStreamBit(q, 8 * i + 1), SextetStreamBit(q, 8 * i + 2),
              SextetStreamBit(q, 8 * i + 3), SextetStreamBit(q, 8 * i + 4), SextetStreamBit(q, 8 * i + 5),
              SextetStreamBit(q, 8 * i + 6), SextetStreamBit(q, 8 * i + 7))
  }

  /** How many sextets cover n bytes. */
  function SextetCount(n: nat): nat { (8 * n + 5) / 6 }

  /** How many pad characters complete the last group of four. */
  function PadCount(n: nat): nat { (3 - n % 3) % 3 }

  function Sextets(s: seq<byte>): (q: seq<sextet>)
    ensures |q| == SextetCount(|s|)
  {
    seq(SextetCount(|s|), i requires i >= 0 => Sextet(s, i))
  }

  /** The bytes that whole octets of the sextets' bit stream give; left-over bits are dropped. */
  function Octets(q: seq<sextet>): (s: seq<byte>)
    ensures |s| == 6 * |q| / 8
  {
    seq(6 * |q| / 8, i requires i >= 0 => Octet(q, i))
  }

  function Characters(q: seq<sextet>): (t: Str)
    ensures |t| == |q|
  {
    seq(|q|, i requires 0 <= i < |q| => Alphabet(q[i]))
  }

  function Pads(k: nat): (t: Str)
    ensures |t| == k
  {
    seq(k, _ => PAD)
  }

  /** Section 4 of RFC 4648. */
  function Encode(s: seq<byte>): Str {
    Characters(Sextets(s)) + Pads(PadCount(|s|))
  }

  /** How many characters come before the first one outside the alphabet. */
  function PrefixLength(t: Str): (n: nat)
    ensures n <= |t|
    ensures forall i :: 0 <= i < n ==> IndexOf(t[i]) >= 0
    ensures n < |t| ==> IndexOf(t[n]) < 0
  {
    if t == [] || IndexOf(t[0]) < 0 then 0 else 1 + PrefixLength(t[1..])
  }

  function Indices(t: Str): (q: seq<sextet>)
    requires forall i :: 0 <= i < |t| ==> IndexOf(t[i]) >= 0
    ensures |q| == |t|
  {
    seq(|t|, i requires 0 <= i < |t| => IndexOf(t[i]))
  }

  /** The bytes that the leading alphabet characters of a text stand for. */
  function Decode(t: Str): seq<byte> {
    Octets(Indices(t[..PrefixLength(t)]))
  }

  /** Bytes are a decoding once every one is in its place. */
  lemma DecodedAt(t: Str, s: seq<byte>)
    requires var q := Indices(t[..PrefixLength(t)]);
             |s| == 6 * |q| / 8 && forall k :: 0 <= k < |s| ==> s[k] == Octet(q, k)
    ensures s == Decode(t)
  {
    hide Octet, IndexOf;
  }

  // ----- the laws of the encoding -----

  lemma IndexOfAlphabet(q: sextet)
    ensures IndexOf(Alphabet(q)) == q
  {
  }

  /** The counts, by the number of bytes in the last group. */
  lemma Counts(n: nat)
    ensures n % 3 == 0 ==> SextetCount(n) == 4 * (n / 3) && PadCount(n) == 0
    ensures n % 3 == 1 ==> SextetCount(n) == 4 * (n / 3) + 2 && PadCount(n) == 2
    ensures n % 3 == 2 ==> SextetCount(n) == 4 * (n / 3) + 3 && PadCount(n) == 1
  {
    var g := n / 3;
    if n % 3 == 0 {
      DivModUnique(8 * n + 5, 6, 4 * g, 5);
    } else if n % 3 == 1 {
      DivModUnique(8 * n + 5, 6, 4 * g + 2, 1);
    } else {
      DivModUnique(8 * n + 5, 6, 4 * g + 3, 3);
    }
  }

  /** The bits of the characters, less two for each pad, are the bits of the bytes. */
  lemma BitCount(n: nat)
    ensures 6 * SextetCount(n) - 2 * PadCount(n) == 8 * n
  {
    hide SextetCount, PadCount;
    Counts(n);
  }

  lemma SplitByte(b: byte)
    ensures b == FromBits8(ByteBit(b, 0), ByteBit(b, 1), ByteBit(b, 2), ByteBit(b, 3),
                           ByteBit(b, 4), ByteBit(b, 5), ByteBit(b, 6), ByteBit(b, 7))
  {
    Halves(b);
  }

  lemma Halves(b: byte)
    ensures b == 2 * (b / 2) + b % 2
    ensures b / 2 == 2 * (b / 4) + b / 2 % 2
    ensures b / 4 == 2 * (b / 8) + b / 4 % 2
    ensures b / 8 == 2 * (b / 16) + b / 8 % 2
    ensures b / 16 == 2 * (b / 32) + b / 16 % 2
    ensures b / 32 == 2 * (b / 64) + b / 32 % 2
    ensures b / 64 == 2 * (b / 128) + b / 64 % 2
    ensures b / 128 == b / 128 % 2
  {
    Half2(b); Half4(b); Half8(b); Half16(b); Half32(b); Half64(b);
  }

  lemma Half2(x: nat) ensures x / 2 == 2 * (x / 4) + x / 2 % 2 {}
  lemma Half4(x: nat) ensures x / 4 == 2 * (x / 8) + x / 4 % 2 {}
  lemma Half8(x: nat) ensures x / 8 == 2 * (x / 16) + x / 8 % 2 {}
  lemma Half16(x: nat) ensures x / 16 == 2 * (x / 32) + x / 16 % 2 {}
  lemma Half32(x: nat) ensures x / 32 == 2 * (x / 64) + x / 32 % 2 {}
  lemma Half64(x: nat) ensures x / 64 == 2 * (x / 128) + x / 64 % 2 {}

  lemma SplitSextet(q: sextet)
    ensures q == FromBits6(SextetBit(q, 0), SextetBit(q, 1), SextetBit(q, 2),
                           SextetBit(q, 3), SextetBit(q, 4), SextetBit(q, 5))
  {
    SplitByte(q);
    assert ByteBit(q, 0) == 0 && ByteBit(q, 1) == 0;
  }

  lemma BitOfSextet(b0: bit, b1: bit, b2: bit, b3: bit, b4: bit, b5: bit)
    ensures var q := FromBits6(b0, b1, b2, b3, b4, b5);
            && SextetBit(q, 0) == b0 && SextetBit(q, 1) == b1 && SextetBit(q, 2) == b2
            && SextetBit(q, 3) == b3 && SextetBit(q, 4) == b4 && SextetBit(q, 5) == b5
  {
    var q := FromBits6(b0, b1, b2, b3, b4, b5);
    assert q % 2 == b5 && q / 2 == 16 * b0 + 8 * b1 + 4 * b2 + 2 * b3 + b4;
    assert q / 2 % 2 == b4 && q / 4 == 8 * b0 + 4 * b1 + 2 * b2 + b3;
    assert q / 4 % 2 == b3 && q / 8 == 4 * b0 + 2 * b1 + b2;
    assert q / 8 % 2 == b2 && q / 16 == 2 * b0 + b1;
    assert q / 16 % 2 == b1 && q / 32 == b0;
  }

  /** Cutting the bytes into sextets does not change the bit stream. */
  lemma SameStream(s: seq<byte>, k: nat)
    requires k < 8 * |s|
    ensures SextetStreamBit(Sextets(s), k) == StreamBit(s, k)
  {
    hide SextetBit, FromBits6, StreamBit;
    var i := k / 6;
    assert Sextets(s)[i] == Sextet(s, i);
    BitOfSextet(StreamBit(s, 6 * i), StreamBit(s, 6 * i + 1), StreamBit(s, 6 * i + 2),
                StreamBit(s, 6 * i + 3), StreamBit(s, 6 * i + 4), StreamBit(s, 6 * i + 5));
  }

  /** Decoding the sextets of some bytes gives the bytes back. */
  lemma SextetsRoundTrip(s: seq<byte>)
    ensures Octets(Sextets(s)) == s
  {
    forall i | 0 <= i < |s|
      ensures Octet(Sextets(s), i) == s[i]
    {
      OctetOfSextets(s, i);
    }
  }

  lemma OctetOfSextets(s: seq<byte>, i: nat)
    requires i < |s|
    ensures Octet(Sextets(s), i) == s[i]
  {
    hide SextetStreamBit, ByteBit, FromBits8, Sextets;
    SameStream(s, 8 * i); SameStream(s, 8 * i + 1); SameStream(s, 8 * i + 2); SameStream(s, 8 * i + 3);
    SameStream(s, 8 * i + 4); SameStream(s, 8 * i + 5); SameStream(s, 8 * i + 6); SameStream(s, 8 * i + 7);
    SplitByte(s[i]);
  }

  lemma {:induction false} PrefixOf(t: Str, n: nat)
    requires n <= |t|
    requires forall i :: 0 <= i < n ==> IndexOf(t[i]) >= 0
    requires n < |t| ==> IndexOf(t[n]) < 0
    ensures PrefixLength(t) == n
  {
    if n != 0 {
      PrefixOf(t[1..], n - 1);
    }
  }

  /** The alphabet characters of an encoding are those before the pads, and they stand for the sextets. */
  lemma EncodingPrefix(s: seq<byte>)
    ensures PrefixLength(Encode(s)) == SextetCount(|s|)
    ensures Indices(Encode(s)[..SextetCount(|s|)]) == Sextets(s)
  {
    hide Sextet, IndexOf;
    var t, n := Encode(s), SextetCount(|s|);
    forall i | 0 <= i < n
      ensures IndexOf(t[i]) == Sextets(s)[i]
    {
      IndexOfAlphabet(Sextets(s)[i]);
    }
    PadIsOutside();
    PrefixOf(t, n);
  }

  lemma PadIsOutside()
    ensures IndexOf(PAD) == -1
  {
  }

  /** Decoding undoes encoding, for every byte string. */
  lemma RoundTrip(s: seq<byte>)
    ensures Decode(Encode(s)) == s
  {
    EncodingPrefix(s);
    SextetsRoundTrip(s);
  }

  /** A text is the encoding once every character and every pad is in its place. */
  lemma EncodingAt(s: seq<byte>, t: Str)
    requires |t| == SextetCount(|s|) + PadCount(|s|)
    requires forall k :: 0 <= k < SextetCount(|s|) ==> t[k] == Alphabet(Sextet(s, k))
    requires forall k :: SextetCount(|s|) <= k < |t| ==> t[k] == PAD
    ensures t == Encode(s)
  {
    hide Sextet, Alphabet;
  }

  /** No character of an encoding is NUL, so it can be a C string. */
  lemma EncodingIsNulFree(s: seq<byte>)
    ensures NulFree(Encode(s))
  {
    hide Sextets;
  }

  /** An encoding has four characters for every three bytes or part of three. */
  lemma EncodedLength(s: seq<byte>)
    ensures |Encode(s)| == (|s| + 2) / 3 * 4
  {
    hide Characters, Sextets, Pads, SextetCount, PadCount;
    Counts(|s|);
  }

  // ----- the 3-to-4 form -----

  /** Byte k, or zero past the end. */
  function ByteAt(s: seq<byte>, k: nat): byte {
    if k < |s| then s[k] else 0
  }

  function SextetAt(q: seq<sextet>, k: nat): sextet {
    if k < |q| then q[k] else 0
  }

  /** Four sextets from three bytes, by shifting and masking. */
  function Split(a: int, b: int, c: int): (int, int, int, int) {
    (a / 4, a % 4 * 16 + b / 16, b % 16 * 4 + c / 64, c % 64)
  }

  /** Three bytes from four sextets, by shifting and masking. */
  function Join(a: int, b: int, c: int, d: int): (int, int, int) {
    (a * 4 + b / 16, b % 16 * 16 + c / 4, c % 4 * 64 + d)
  }

  lemma StreamBits(s: seq<byte>, k: nat, j: nat)
    requires j < 8
    ensures StreamBit(s, 8 * k + j) == ByteBit(ByteAt(s, k), j)
  {
    assert (8 * k + j) / 8 == k && (8 * k + j) % 8 == j;
    assert ByteBit(0, j) == 0;
  }

  /** Sextets 4g to 4g + 3 are the split of bytes 3g to 3g + 2. */
  lemma SextetGroup(s: seq<byte>, g: nat)
    ensures (Sextet(s, 4 * g), Sextet(s, 4 * g + 1), Sextet(s, 4 * g + 2), Sextet(s, 4 * g + 3))
         == Split(ByteAt(s, 3 * g), ByteAt(s, 3 * g + 1), ByteAt(s, 3 * g + 2))
  {
    hide StreamBit, ByteBit, FromBits6, FromBits8, Split;
    var a, b, c := ByteAt(s, 3 * g), ByteAt(s, 3 * g + 1), ByteAt(s, 3 * g + 2);
    forall j: nat | j < 8
      ensures StreamBit(s, 24 * g + j) == ByteBit(a, j)
      ensures StreamBit(s, 24 * g + 8 + j) == ByteBit(b, j)
      ensures StreamBit(s, 24 * g + 16 + j) == ByteBit(c, j)
    {
      StreamBits(s, 3 * g, j);
      StreamBits(s, 3 * g + 1, j);
      StreamBits(s, 3 * g + 2, j);
    }
    SplitBits(ByteBit(a, 0), ByteBit(a, 1), ByteBit(a, 2), ByteBit(a, 3),
              ByteBit(a, 4), ByteBit(a, 5), ByteBit(a, 6), ByteBit(a, 7),
              ByteBit(b, 0), ByteBit(b, 1), ByteBit(b, 2), ByteBit(b, 3),
              ByteBit(b, 4), ByteBit(b, 5), ByteBit(b, 6), ByteBit(b, 7),
              ByteBit(c, 0), ByteBit(c, 1), ByteBit(c, 2), ByteBit(c, 3),
              ByteBit(c, 4), ByteBit(c, 5), ByteBit(c, 6), ByteBit(c, 7));
    SplitByte(a);
    SplitByte(b);
    SplitByte(c);
  }

  lemma ByteParts(b0: bit, b1: bit, b2: bit, b3: bit, b4: bit, b5: bit, b6: bit, b7: bit)
    ensures var b := FromBits8(b0, b1, b2, b3, b4, b5, b6, b7);
            && b / 4 == FromBits6(b0, b1, b2, b3, b4, b5) && b % 4 == 2 * b6 + b7
            && b / 16 == 8 * b0 + 4 * b1 + 2 * b2 + b3 && b % 16 == 8 * b4 + 4 * b5 + 2 * b6 + b7
            && b / 64 == 2 * b0 + b1 && b % 64 == FromBits6(b2, b3, b4, b5, b6, b7)
  {
  }

  lemma Glue6(b0: bit, b1: bit, b2: bit, b3: bit, b4: bit, b5: bit)
    ensures (2 * b0 + b1) * 16 + (8 * b2 + 4 * b3 + 2 * b4 + b5) == FromBits6(b0, b1, b2, b3, b4, b5)
    ensures (8 * b0 + 4 * b1 + 2 * b2 + b3) * 4 + (2 * b4 + b5) == FromBits6(b0, b1, b2, b3, b4, b5)
  {
  }

  lemma SplitBits(a0: bit, a1: bit, a2: bit, a3: bit, a4: bit, a5: bit, a6: bit, a7: bit,
                  b0: bit, b1: bit, b2: bit, b3: bit, b4: bit, b5: bit, b6: bit, b7: bit,
                  c0: bit, c1: bit, c2: bit, c3: bit, c4: bit, c5: bit, c6: bit, c7: bit)
    ensures Split(FromBits8(a0, a1, a2, a3, a4, a5, a6, a7), FromBits8(b0, b1, b2, b3, b4, b5, b6, b7),
                  FromBits8(c0, c1, c2, c3, c4, c5, c6, c7))
         == (FromBits6(a0, a1, a2, a3, a4, a5), FromBits6(a6, a7, b0, b1, b2, b3),
             FromBits6(b4, b5, b6, b7, c0, c1), FromBits6(c2, c3, c4, c5, c6, c7))
  {
    hide FromBits8, FromBits6;
    Glue6(a6, a7, b0, b1, b2, b3);
    Glue6(b4, b5, b6, b7, c0, c1);
    ByteParts(a0, a1, a2, a3, a4, a5, a6, a7);
    ByteParts(b0, b1, b2, b3, b4, b5, b6, b7);
    ByteParts(c0, c1, c2, c3, c4, c5, c6, c7);
  }

  lemma SextetStreamBits(q: seq<sextet>, k: nat, j: nat)
    requires j < 6
    ensures SextetStreamBit(q, 6 * k + j) == SextetBit(SextetAt(q, k), j)
  {
    assert (6 * k + j) / 6 == k && (6 * k + j) % 6 == j;
    assert SextetBit(0, j) == 0;
  }

  /** Octets 3g to 3g + 2 are the join of sextets 4g to 4g + 3. */
  lemma OctetGroup(q: seq<sextet>, g: nat)
    ensures (Octet(q, 3 * g), Octet(q, 3 * g + 1), Octet(q, 3 * g + 2))
         == Join(SextetAt(q, 4 * g), SextetAt(q, 4 * g + 1), SextetAt(q, 4 * g + 2), SextetAt(q, 4 * g + 3))
  {
    hide SextetStreamBit, SextetBit, FromBits6, FromBits8, Join;
    var a, b, c, d := SextetAt(q, 4 * g), SextetAt(q, 4 * g + 1), SextetAt(q, 4 * g + 2), SextetAt(q, 4 * g + 3);
    forall j: nat | j < 6
      ensures SextetStreamBit(q, 24 * g + j) == SextetBit(a, j)
      ensures SextetStreamBit(q, 24 * g + 6 + j) == SextetBit(b, j)
      ensures SextetStreamBit(q, 24 * g + 12 + j) == SextetBit(c, j)
      ensures SextetStreamBit(q, 24 * g + 18 + j) == SextetBit(d, j)
    {
      SextetStreamBits(q, 4 * g, j);
      SextetStreamBits(q, 4 * g + 1, j);
      SextetStreamBits(q, 4 * g + 2, j);
      SextetStreamBits(q, 4 * g + 3, j);
    }
    JoinBits(SextetBit(a, 0), SextetBit(a, 1), SextetBit(a, 2), SextetBit(a, 3), SextetBit(a, 4), SextetBit(a, 5),
             SextetBit(b, 0), SextetBit(b, 1), SextetBit(b, 2), SextetBit(b, 3), SextetBit(b, 4), SextetBit(b, 5),
             SextetBit(c, 0), SextetBit(c, 1), SextetBit(c, 2), SextetBit(c, 3), SextetBit(c, 4), SextetBit(c, 5),
             SextetBit(d, 0), SextetBit(d, 1), SextetBit(d, 2), SextetBit(d, 3), SextetBit(d, 4), SextetBit(d, 5));
    SplitSextet(a);
    SplitSextet(b);
    SplitSextet(c);
    SplitSextet(d);
  }

  lemma Joined(a: int, b: int, c: int, d: int)
    ensures Join(a, b, c, d).0 == a * 4 + b / 16 && Join(a, b, c, d).1 == b % 16 * 16 + c / 4
    ensures Join(a, b, c, d).2 == c % 4 * 64 + d
  {
  }

  lemma SextetParts(b0: bit, b1: bit, b2: bit, b3: bit, b4: bit, b5: bit)
    ensures var q := FromBits6(b0, b1, b2, b3, b4, b5);
            && q / 4 == 8 * b0 + 4 * b1 + 2 * b2 + b3 && q % 4 == 2 * b4 + b5
            && q / 16 == 2 * b0 + b1 && q % 16 == 8 * b2 + 4 * b3 + 2 * b4 + b5
  {
  }

  lemma Glue8(b0: bit, b1: bit, b2: bit, b3: bit, b4: bit, b5: bit, b6: bit, b7: bit)
    ensures FromBits6(b0, b1, b2, b3, b4, b5) * 4 + (2 * b6 + b7) == FromBits8(b0, b1, b2, b3, b4, b5, b6, b7)
    ensures (8 * b0 + 4 * b1 + 2 * b2 + b3) * 16 + (8 * b4 + 4 * b5 + 2 * b6 + b7)
         == FromBits8(b0, b1, b2, b3, b4, b5, b6, b7)
    ensures (2 * b0 + b1) * 64 + FromBits6(b2, b3, b4, b5, b6, b7) == FromBits8(b0, b1, b2, b3, b4, b5, b6, b7)
  {
  }

  lemma JoinBits(a0: bit, a1: bit, a2: bit, a3: bit, a4: bit, a5: bit,
                 b0: bit, b1: bit, b2: bit, b3: bit, b4: bit, b5: bit,
                 c0: bit, c1: bit, c2: bit, c3: bit, c4: bit, c5: bit,
                 d0: bit, d1: bit, d2: bit, d3: bit, d4: bit, d5: bit)
    ensures Join(FromBits6(a0, a1, a2, a3, a4, a5), FromBits6(b0, b1, b2, b3, b4, b5),
                 FromBits6(c0, c1, c2, c3, c4, c5), FromBits6(d0, d1, d2, d3, d4, d5))
         == (FromBits8(a0, a1, a2, a3, a4, a5, b0, b1), FromBits8(b2, b3, b4, b5, c0, c1, c2, c3),
             FromBits8(c4, c5, d0, d1, d2, d3, d4, d5))
  {
    hide FromBits6, FromBits8, Join;
    Joined(FromBits6(a0, a1, a2, a3, a4, a5), FromBits6(b0, b1, b2, b3, b4, b5),
           FromBits6(c0, c1, c2, c3, c4, c5), FromBits6(d0, d1, d2, d3, d4, d5));
    Glue8(a0, a1, a2, a3, a4, a5, b0, b1);
    Glue8(b2, b3, b4, b5, c0, c1, c2, c3);
    Glue8(c4, c5, d0, d1, d2, d3, d4, d5);
    SextetParts(b0, b1, b2, b3, b4, b5);
    SextetParts(c0, c1, c2, c3, c4, c5);
  }
}

/** Base64 through an explicit array of bits: `encode` and `decode` of the file tool. */
module Base64BitArray {
  import opened Bytes
  import opened Bits
  import opened Base64Spec

  /**
   * Writes the binary digits of `quotien` into the `width` places that end before `end`, least
   * significant last; places above its leading one are not touched, and hold the zeros of `calloc`.
   */
  method StoreBits(bits: array<int>, end: nat, width: nat, value: nat)
    requires 0 < width <= end <= bits.Length && value < Pow2(width)
    requires forall k :: end - width <= k < end ==> bits[k] == 0
    modifies bits
    ensures forall k :: 0 <= k < bits.Length && !(end - width <= k < end) ==> bits[k] == old(bits[k])
    ensures forall k :: end - width <= k < end ==> bits[k] == Shr(value, end - 1 - k) % 2
  {
    var index, quotien := end, value;
    ghost var d := 0;
    while quotien / 2 != 0
      invariant d < width && index == end - d && quotien == Shr(value, d) && quotien < Pow2(width - d)
      invariant forall k :: 0 <= k < bits.Length && !(end - d <= k < end) ==> bits[k] == old(bits[k])
      invariant forall k :: end - d <= k < end ==> bits[k] == Shr(value, end - 1 - k) % 2
      decreases quotien
    {
      index := index - 1;
      bits[index] := quotien % 2;
      ShrStep(value, d);
      assert width - d > 1;
      quotien := quotien / 2;
      d := d + 1;
    }
    bits[index - 1] := quotien % 2;
    forall k: nat | d < k < width
      ensures Shr(value, k) == 0
    {
      ShrZero(value, d, k);
    }
  }

  lemma {:induction false} ShrStep(x: nat, n: nat)
    ensures Shr(x, n + 1) == Shr(x, n) / 2
  {
    if n != 0 {
      ShrStep(x / 2, n - 1);
    }
  }

  lemma {:induction false} ShrZero(x: nat, d: nat, k: nat)
    requires d < k && Shr(x, d) / 2 == 0
    ensures Shr(x, k) == 0
  {
    ShrStep(x, k - 1);
    if k - 1 != d {
      ShrZero(x, d, k - 1);
    }
  }

  /** Reads `width` places from `from` on as a number, least significant place last. */
  method ReadBits(bits: array<int>, from: nat, width: nat) returns (value: nat)
    requires from + width <= bits.Length
    requires forall k :: from <= k < from + width ==> 0 <= bits[k] < 2
    ensures value == BitsValue(bits[from..from + width])
  {
    value := 0;
    var power := 0;
    for j := 0 to width
      invariant power == j
      invariant value == BitsValue(bits[from + width - j..from + width])
    {
      ghost var rest := bits[from + width - j..from + width];
      assert bits[from + width - j - 1..from + width] == [bits[from + width - j - 1]] + rest;
      if bits[from + width - 1 - j] == 1 {
        var powe := 1;
        for k := 0 to power
          invariant powe == Pow2(k)
        {
          powe := powe * 2;
        }
        value := value + powe;
      }
      power := power + 1;
    }
  }

  /** The number that a sequence of binary digits stands for, most significant first. */
  function BitsValue(b: seq<int>): nat {
    if b == [] then 0 else (if b[0] == 1 then Pow2(|b| - 1) else 0) + BitsValue(b[1..])
  }

  lemma SixBits(b: seq<int>)
    requires |b| == 6 && forall k :: 0 <= k < 6 ==> 0 <= b[k] < 2
    ensures BitsValue(b) == FromBits6(b[0], b[1], b[2], b[3], b[4], b[5])
  {
    assert Pow2(0) == 1 && Pow2(1) == 2 && Pow2(2) == 4 && Pow2(3) == 8 && Pow2(4) == 16 && Pow2(5) == 32;
    assert b[1..][1..] == b[2..] && b[2..][1..] == b[3..] && b[3..][1..] == b[4..] && b[4..][1..] == b[5..];
    assert b[5..][1..] == [];
    assert BitsValue(b[5..]) == b[5];
    assert BitsValue(b[4..]) == 2 * b[4] + b[5];
    assert BitsValue(b[3..]) == 4 * b[3] + 2 * b[4] + b[5];
    assert BitsValue(b[2..]) == 8 * b[2] + 4 * b[3] + 2 * b[4] + b[5];
    assert BitsValue(b[1..]) == 16 * b[1] + 8 * b[2] + 4 * b[3] + 2 * b[4] + b[5];
  }

  lemma EightBits(b: seq<int>)
    requires |b| == 8 && forall k :: 0 <= k < 8 ==> 0 <= b[k] < 2
    ensures BitsValue(b) == FromBits8(b[0], b[1], b[2], b[3], b[4], b[5], b[6], b[7])
  {
    assert b[1..][1..] == b[2..];
    SixBits(b[2..]);
    assert Pow2(4) == 16;
    assert Pow2(6) == 64 && Pow2(7) == 128;
  }

  /**
   * Encodes a C string. The result has one place more than the C code allocates, for the terminator
   * that it writes.
   */
  method BitArrayEncode(str: Str) returns (data: array<byte>)
    requires NulFree(str)
    ensures fresh(data) && data.Length == |Encode(str)| + 1
    ensures data[..|Encode(str)|] == Encode(str) && data[|Encode(str)|] == 0
  {
    hide Sextet, Alphabet, StreamBit, Encode, SextetCount, PadCount;
    var numberOfBinary, padding := CountBits(|str|);
    data := new byte[numberOfBinary / 6 + padding / 2 + 1];
    var bits := StoreBytes(str, numberOfBinary);
    WriteCharacters(str, bits, data, numberOfBinary);
    WritePads(str, data, numberOfBinary / 6, padding);
  }

  /** Adds bits until whole sextets are filled; `padding` counts them. */
  method CountBits(length: nat) returns (numberOfBinary: nat, padding: nat)
    ensures numberOfBinary == 6 * SextetCount(length) && padding == 2 * PadCount(length)
    ensures numberOfBinary == 8 * length + padding
  {
    hide SextetCount, PadCount;
    Counts(length);
    BitCount(length);
    numberOfBinary, padding := length * 8, 0;
    while numberOfBinary % 6 != 0
      invariant numberOfBinary == 8 * length + padding && padding <= 2 * PadCount(length)
      decreases 2 * PadCount(length) - padding
    {
      MultipleOfSix(numberOfBinary, SextetCount(length));
      padding := padding + 1;
      numberOfBinary := numberOfBinary + 1;
    }
    MultipleOfSix(numberOfBinary, SextetCount(length));
  }

  lemma MultipleOfSix(x: int, s: int)
    requires 6 * s - 5 <= x <= 6 * s
    ensures x % 6 == 0 <==> x == 6 * s
  {
    if x == 6 * s {
      DivModUnique(x, 6, s, 0);
    } else {
      DivModUnique(x, 6, s - 1, x - 6 * s + 6);
    }
  }

  /** The loop that reads sextets from the end of the bits and writes their characters. */
  method WriteCharacters(ghost str: Str, bits: array<int>, data: array<byte>, numberOfBinary: nat)
    requires numberOfBinary == 6 * SextetCount(|str|) && bits.Length == numberOfBinary
    requires data.Length > SextetCount(|str|)
    requires forall k :: 0 <= k < numberOfBinary ==> bits[k] == StreamBit(str, k)
    modifies data
    ensures forall k :: 0 <= k < SextetCount(|str|) ==> data[k] == Alphabet(Sextet(str, k))
  {
    hide Sextet, Alphabet, StreamBit, SextetCount;
    var index := numberOfBinary / 6;
    var i := numberOfBinary - 1;
    ghost var given := bits[..];
    while i > 0
      invariant 0 <= index <= SextetCount(|str|) && i == 6 * index - 1
      invariant bits[..] == given
      invariant forall k :: index <= k < SextetCount(|str|) ==> data[k] == Alphabet(Sextet(str, k))
    {
      assert forall k :: i - 5 <= k <= i ==> bits[k] == given[k] == StreamBit(str, k);
      var sixBit := ReadBits(bits, i - 5, 6);
      SextetOfBits(str, index - 1, bits[i - 5..i - 5 + 6]);
      index := index - 1;
      data[index] := Alphabet(sixBit);
      i := i - 6;
    }
  }

  /** Pads and terminator after the characters. */
  method WritePads(ghost str: Str, data: array<byte>, characters: nat, padding: nat)
    requires characters == SextetCount(|str|) && padding == 2 * PadCount(|str|)
    requires data.Length == characters + padding / 2 + 1
    requires forall k :: 0 <= k < characters ==> data[k] == Alphabet(Sextet(str, k))
    modifies data
    ensures data.Length == |Encode(str)| + 1
    ensures data[..|Encode(str)|] == Encode(str) && data[|Encode(str)|] == 0
  {
    hide Sextet, Alphabet;
    if padding == 2 {
      data[characters] := PAD;
    }
    if padding == 4 {
      data[characters] := PAD;
      data[characters + 1] := PAD;
    }
    data[characters + padding / 2] := 0;
    EncodingAt(str, data[..characters + padding / 2]);
  }

  lemma SextetOfBits(s: seq<byte>, k: nat, b: seq<int>)
    requires |b| == 6 && forall j :: 0 <= j < 6 ==> b[j] == StreamBit(s, 6 * k + j)
    ensures BitsValue(b) == Sextet(s, k)
  {
    hide StreamBit, BitsValue;
    SixBits(b);
  }

  /** Eight places for each byte, in an array of `count` zeros. */
  method StoreBytes(str: Str, count: nat) returns (bits: array<int>)
    requires 8 * |str| <= count
    ensures fresh(bits) && bits.Length == count
    ensures forall k :: 0 <= k < count ==> bits[k] == StreamBit(str, k)
  {
    hide Shr, ByteBit;
    bits := new int[count](_ => 0);
    var zIndex := 8;
    for i := 0 to |str|
      invariant zIndex == 8 * i + 8
      invariant forall k :: 0 <= k < 8 * i ==> bits[k] == StreamBit(str, k)
      invariant forall k :: 8 * i <= k < count ==> bits[k] == 0
    {
      ByteBitIsShr(str[i], 0);
      StoreBits(bits, zIndex, 8, str[i]);
      forall k | 8 * i <= k < 8 * i + 8
        ensures StreamBit(str, k) == Shr(str[i], zIndex - 1 - k) % 2
      {
        StreamBitIsShr(str, i, k);
      }
      zIndex := zIndex + 8;
    }
  }

  lemma StreamBitIsShr(s: seq<byte>, i: nat, k: nat)
    requires i < |s| && 8 * i <= k < 8 * i + 8
    ensures StreamBit(s, k) == Shr(s[i], 8 * i + 7 - k) % 2
  {
    hide Shr, ByteBit;
    StreamBits(s, i, k - 8 * i);
    ByteBitIsShr(s[i], 8 * i + 7 - k);
  }

  lemma ByteBitIsShr(b: byte, k: nat)
    requires k < 8
    ensures ByteBit(b, 7 - k) == Shr(b, k) % 2 && b < Pow2(8)
  {
    assert Pow2(4) == 16 && Pow2(8) == 256;
    Quotients(b);
  }

  lemma SextetBitIsShr(q: sextet, k: nat)
    requires k < 6
    ensures SextetBit(q, 5 - k) == Shr(q, k) % 2 && q < Pow2(6)
  {
    assert Pow2(3) == 8 && Pow2(6) == 64;
    Quotients(q);
  }

  lemma Quotients(x: nat)
    ensures Shr(x, 0) == x && Shr(x, 1) == x / 2 && Shr(x, 2) == x / 4 && Shr(x, 3) == x / 8
    ensures Shr(x, 4) == x / 16 && Shr(x, 5) == x / 32 && Shr(x, 6) == x / 64 && Shr(x, 7) == x / 128
  {
    ShrStep(x, 0); ShrStep(x, 1); ShrStep(x, 2); ShrStep(x, 3); ShrStep(x, 4); ShrStep(x, 5); ShrStep(x, 6);
    Quotient4(x); Quotient8(x); Quotient16(x); Quotient32(x); Quotient64(x); Quotient128(x);
  }

  lemma Quotient4(x: nat) ensures x / 2 / 2 == x / 4 {}
  lemma Quotient8(x: nat) ensures x / 4 / 2 == x / 8 {}
  lemma Quotient16(x: nat) ensures x / 8 / 2 == x / 16 {}
  lemma Quotient32(x: nat) ensures x / 16 / 2 == x / 32 {}
  lemma Quotient64(x: nat) ensures x / 32 / 2 == x / 64 {}
  lemma Quotient128(x: nat) ensures x / 64 / 2 == x / 128 {}

  // ----- decoding -----

  /** How many pad characters occur anywhere in a text. */
  function PadsIn(t: Str): (n: nat)
    ensures n <= |t|
  {
    if t == [] then 0 else PadsIn(t[..|t| - 1]) + if t[|t| - 1] == PAD then 1 else 0
  }

  /** The place of a character in the alphabet; 0 when it has none. */
  function IndexOrZero(c: byte): sextet {
    if IndexOf(c) >= 0 then IndexOf(c) else 0
  }

  function AnyIndices(t: Str): (q: seq<sextet>)
    ensures |q| == |t|
  {
    seq(|t|, i requires 0 <= i < |t| => IndexOrZero(t[i]))
  }

  /** The search of the decoder through the alphabet. */
  method FindIndex(c: byte) returns (quotien: nat)
    ensures quotien == IndexOrZero(c)
  {
    for j := 0 to 64
      invariant forall k: sextet :: k < j ==> Alphabet(k) != c
    {
      if Alphabet(j) == c {
        IndexOfAlphabet(j);
        return j;
      }
    }
    assert !InAlphabet(c);
    return 0;
  }

  /** Six places for each character, in an array of `count` zeros. */
  method StoreSextets(t: Str, count: nat) returns (bits: array<int>)
    requires 6 * |t| <= count
    ensures fresh(bits) && bits.Length == count
    ensures forall k :: 0 <= k < count ==> bits[k] == SextetStreamBit(AnyIndices(t), k)
  {
    hide Shr, SextetBit, IndexOrZero;
    ghost var q := AnyIndices(t);
    bits := new int[count](_ => 0);
    var zIndex := 6;
    for i := 0 to |t|
      invariant zIndex == 6 * i + 6
      invariant forall k :: 0 <= k < 6 * i ==> bits[k] == SextetStreamBit(q, k)
      invariant forall k :: 6 * i <= k < count ==> bits[k] == 0
    {
      var quotien := FindIndex(t[i]);
      SextetBitIsShr(quotien, 0);
      StoreBits(bits, zIndex, 6, quotien);
      forall k | 6 * i <= k < 6 * i + 6
        ensures SextetStreamBit(q, k) == Shr(quotien, zIndex - 1 - k) % 2
      {
        SextetStreamBitIsShr(q, i, k);
      }
      zIndex := zIndex + 6;
    }
  }

  lemma SextetStreamBitIsShr(q: seq<sextet>, i: nat, k: nat)
    requires i < |q| && 6 * i <= k < 6 * i + 6
    ensures SextetStreamBit(q, k) == Shr(q[i], 6 * i + 5 - k) % 2
  {
    hide Shr, SextetBit;
    SextetStreamBits(q, i, k - 6 * i);
    SextetBitIsShr(q[i], 6 * i + 5 - k);
  }

  /** The number of bits that the decoder expects: the pads stand for two bits each that were filled in. */
  function ExpectedBits(t: Str): int {
    6 * (|t| - PadsIn(t)) - 2 * PadsIn(t)
  }

  /**
   * Decodes a C string whose bits fit into the scratch array of eight times the expected number.
   * `count` bytes of the result are data; as with the encoder there is one more place than the
   * C code allocates.
   */
  method BitArrayDecode(str: Str) returns (data: array<byte>, count: nat)
    requires NulFree(str)
    requires 6 * (|str| - PadsIn(str)) <= 8 * ExpectedBits(str)
    ensures fresh(data) && count == ExpectedBits(str) / 8 && data.Length == count + 2
    ensures forall k :: 0 <= k < count ==> data[k] == Octet(AnyIndices(str[..|str| - PadsIn(str)]), k)
  {
    hide Octet, SextetStreamBit, IndexOrZero;
    var padding := 0;
    for i := 0 to |str|
      invariant padding == PadsIn(str[..i])
    {
      if str[i] == PAD {
        padding := padding + 1;
      }
      assert str[..i + 1][..i] == str[..i];
    }
    assert str[..|str|] == str;
    var numberOfBinary := (|str| - padding) * 6 - padding * 2;
    count := numberOfBinary / 8;
    data := new byte[count + 2];
    ghost var q := AnyIndices(str[..|str| - padding]);
    var bits := StoreSextets(str[..|str| - padding], numberOfBinary * 8);
    WriteOctets(q, bits, data, numberOfBinary);
    data[count + 1] := 0;
  }

  /** The loop that reads octets from the front of the bits. */
  method WriteOctets(ghost q: seq<sextet>, bits: array<int>, data: array<byte>, numberOfBinary: nat)
    requires bits.Length == numberOfBinary * 8 && data.Length == numberOfBinary / 8 + 2
    requires forall k :: 0 <= k < bits.Length ==> bits[k] == SextetStreamBit(q, k)
    modifies data
    ensures forall k :: 0 <= k < numberOfBinary / 8 ==> data[k] == Octet(q, k)
  {
    hide Octet, SextetStreamBit;
    var index, i := 0, 0;
    ghost var given := bits[..];
    while i < numberOfBinary
      invariant 0 <= index && i == 8 * index && index <= numberOfBinary / 8 + 1
      invariant bits[..] == given
      invariant forall k :: 0 <= k < index && k < numberOfBinary / 8 + 1 ==> data[k] == Octet(q, k)
    {
      assert forall k :: i <= k < i + 8 ==> bits[k] == given[k] == SextetStreamBit(q, k);
      var eightBit := ReadBits(bits, i, 8);
      OctetOfBits(q, index, bits[i..i + 8]);
      data[index] := eightBit;
      index := index + 1;
      i := i + 8;
    }
  }

  lemma OctetOfBits(q: seq<sextet>, k: nat, b: seq<int>)
    requires |b| == 8 && forall j :: 0 <= j < 8 ==> b[j] == SextetStreamBit(q, 8 * k + j)
    ensures BitsValue(b) == Octet(q, k)
  {
    hide SextetStreamBit, BitsValue;
    EightBits(b);
  }

  /** The pads of an encoding are counted exactly, so the expected bits are those of the bytes. */
  lemma EncodingBits(s: seq<byte>)
    ensures var t := Encode(s);
            && |t| - PadsIn(t) == SextetCount(|s|) && ExpectedBits(t) == 8 * |s|
  {
    hide IndexOf, Sextets, PadsIn, PrefixLength, SextetCount, PadCount;
    var t, n := Encode(s), SextetCount(|s|);
    EncodingPrefix(s);
    assert forall k :: 0 <= k < n ==> IndexOf(t[k]) >= 0;
    PadIsOutside();
    PadsAtEnd(t, n);
    BitCount(|s|);
  }

  /** Decoding an encoding is allowed, and its data bytes are the encoded ones. */
  lemma BitArrayRoundTrip(s: seq<byte>)
    ensures var t := Encode(s);
            && 6 * (|t| - PadsIn(t)) <= 8 * ExpectedBits(t)
            && ExpectedBits(t) / 8 == |s|
            && forall k :: 0 <= k < |s| ==> Octet(AnyIndices(t[..|t| - PadsIn(t)]), k) == s[k]
  {
    hide Octet, Encode, IndexOf, Sextets, ExpectedBits, PadsIn, PrefixLength;
    var t, n := Encode(s), SextetCount(|s|);
    EncodingBits(s);
    EncodingPrefix(s);
    assert AnyIndices(t[..n]) == Indices(t[..n]);
    forall k | 0 <= k < |s|
      ensures Octet(Sextets(s), k) == s[k]
    {
      OctetOfSextets(s, k);
    }
  }

  /** Encoding and then decoding a C string gives its bytes back. */
  method EncodeAndDecode(str: Str) returns (data: array<byte>, count: nat)
    requires NulFree(str)
    ensures count == |str| < data.Length && data[..count] == str
  {
    hide Encode, Octet, AnyIndices, ExpectedBits, PadsIn;
    var encoded := BitArrayEncode(str);
    EncodingIsNulFree(str);
    BitArrayRoundTrip(str);
    data, count := BitArrayDecode(encoded[..encoded.Length - 1]);
  }

  lemma {:induction false} PadsAtEnd(t: Str, n: nat)
    requires n <= |t|
    requires forall k :: 0 <= k < n ==> t[k] != PAD
    requires forall k :: n <= k < |t| ==> t[k] == PAD
    ensures PadsIn(t) == |t| - n
  {
    if t != [] {
      PadsAtEnd(t[..|t| - 1], if n == |t| then n - 1 else n);
    }
  }
}

/** What the logical functions of section 4.1.2 of FIPS 180-4 do to single bits. */
module Sha256Logic {
  import opened Bits
  import opened Bytes
  import opened Picosha2Words
  import opened Sha256Spec

  /** Bit i of a word, counted from the least significant. */
  function Bit(x: nat, i: nat): (b: nat)
    ensures b < 2
  {
    if i == 0 then x % 2 else Bit(x / 2, i - 1)
  }

  lemma {:induction false} BitOfBitwise(op: Op, x: nat, y: nat, i: nat)
    ensures Bit(Bitwise(op, x, y), i) == OnBit(op, Bit(x, i), Bit(y, i))
    decreases i
  {
    hide Bitwise, OnBit;
    BitwiseStep(op, x, y);
    var o, z := OnBit(op, x % 2, y % 2), Bitwise(op, x / 2, y / 2);
    LowBit(o + 2 * z, o, z);
    if i > 0 {
      BitOfBitwise(op, x / 2, y / 2, i - 1);
    }
  }

  lemma {:induction false} BitOfShr(x: nat, n: nat, i: nat)
    ensures Bit(Shr(x, n), i) == Bit(x, i + n)
    decreases n
  {
    if n > 0 {
      BitOfShr(x / 2, n - 1, i);
    }
  }

  lemma {:induction false} BitOfShl(x: nat, n: nat, i: nat)
    ensures Bit(Shl(x, n), i) == if i < n then 0 else Bit(x, i - n)
    decreases n
  {
    if n > 0 {
      LowBit(2 * Shl(x, n - 1), 0, Shl(x, n - 1));
      if i > 0 {
        BitOfShl(x, n - 1, i - 1);
      }
    }
  }

  lemma {:induction false} BitOfRemainder(x: nat, k: nat, i: nat)
    ensures Bit(x % Pow2(k), i) == if i < k then Bit(x, i) else 0
    decreases k
  {
    if k == 0 {
      BitOfZero(i);
    } else {
      ModHalf(x, Pow2(k - 1));
      if i > 0 {
        BitOfRemainder(x / 2, k - 1, i - 1);
      }
    }
  }

  lemma {:induction false} BitOfZero(i: nat)
    ensures Bit(0, i) == 0
  {
    if i > 0 {
      BitOfZero(i - 1);
    }
  }

  lemma {:induction false} BitOfComplement(x: nat, k: nat, i: nat)
    requires x < Pow2(k) && i < k
    ensures Bit(Pow2(k) - 1 - x, i) == 1 - Bit(x, i)
    decreases k
  {
    var c, p := Pow2(k) - 1 - x, Pow2(k - 1);
    assert Pow2(k) == 2 * p;
    LowBit(c, 1 - x % 2, p - 1 - x / 2);
    if i > 0 {
      BitOfComplement(x / 2, k - 1, i - 1);
    }
  }

  /** A word has 32 bits. */
  lemma HighBits(x: word, i: nat)
    requires i >= 32
    ensures Bit(x, i) == 0
  {
    hide Bit, Pow2;
    Pow2Values();
    BitOfRemainder(x, 32, i);
  }

  /** Rotating moves bit i + n to place i, around the end of the word. */
  lemma BitOfRotr(x: word, n: nat, i: nat)
    requires n < 32 && i < 32
    ensures Bit(Rotr(x, n), i) == Bit(x, (i + n) % 32)
  {
    hide Bit, Bitwise, Shl, Shr, Pow2;
    Pow2Values();
    var s := Shl(x, 32 - n);
    BitOfBitwise(Or, Shr(x, n), s % 0x1_0000_0000, i);
    BitOfShr(x, n, i);
    BitOfRemainder(s, 32, i);
    BitOfShl(x, 32 - n, i);
    if i + n >= 32 {
      HighBits(x, i + n);
    }
  }

  /** Ch chooses: where x has a one the bit of y, elsewhere that of z. */
  lemma BitOfCh(x: word, y: word, z: word, i: nat)
    requires i < 32
    ensures Bit(Ch(x, y, z), i) == if Bit(x, i) == 1 then Bit(y, i) else Bit(z, i)
  {
    hide Bit, Bitwise, Pow2;
    Pow2Values();
    BitOfBitwise(And, x, y, i);
    BitOfComplement(x, 32, i);
    BitOfBitwise(And, Not(x), z, i);
    BitOfBitwise(Xor, AndW(x, y), AndW(Not(x), z), i);
  }

  /** Maj takes the majority. */
  lemma BitOfMaj(x: word, y: word, z: word, i: nat)
    ensures Bit(Maj(x, y, z), i) == if Bit(x, i) + Bit(y, i) + Bit(z, i) >= 2 then 1 else 0
  {
    hide Bit, Bitwise;
    BitOfBitwise(And, x, y, i);
    BitOfBitwise(And, x, z, i);
    BitOfBitwise(And, y, z, i);
    BitOfBitwise(Xor, AndW(x, y), AndW(x, z), i);
    BitOfBitwise(Xor, XorW(AndW(x, y), AndW(x, z)), AndW(y, z), i);
  }

  lemma BitOfSum(a: word, b: word, c: word, i: nat)
    ensures Bit(XorW(XorW(a, b), c), i) == (Bit(a, i) + Bit(b, i) + Bit(c, i)) % 2
  {
    hide Bit, Bitwise;
    BitOfBitwise(Xor, a, b, i);
    BitOfBitwise(Xor, XorW(a, b), c, i);
  }

  /** The sigma functions add three bits modulo 2; a shift brings in zeros. */
  lemma BitOfSigmas(x: word, i: nat)
    requires i < 32
    ensures Bit(BigSigma0(x), i) == (Bit(x, (i + 2) % 32) + Bit(x, (i + 13) % 32) + Bit(x, (i + 22) % 32)) % 2
    ensures Bit(BigSigma1(x), i) == (Bit(x, (i + 6) % 32) + Bit(x, (i + 11) % 32) + Bit(x, (i + 25) % 32)) % 2
    ensures Bit(SmallSigma0(x), i) == (Bit(x, (i + 7) % 32) + Bit(x, (i + 18) % 32) + Bit(x, i + 3)) % 2
    ensures Bit(SmallSigma1(x), i) == (Bit(x, (i + 17) % 32) + Bit(x, (i + 19) % 32) + Bit(x, i + 10)) % 2
    ensures forall j :: j >= 32 ==> Bit(x, j) == 0
  {
    hide Bit, Bitwise, Rotr, Shr;
    BitOfSum(Rotr(x, 2), Rotr(x, 13), Rotr(x, 22), i);
    BitOfSum(Rotr(x, 6), Rotr(x, 11), Rotr(x, 25), i);
    BitOfSum(Rotr(x, 7), Rotr(x, 18), Shr(x, 3), i);
    BitOfSum(Rotr(x, 17), Rotr(x, 19), Shr(x, 10), i);
    BitOfRotr(x, 2, i); BitOfRotr(x, 13, i); BitOfRotr(x, 22, i);
    BitOfRotr(x, 6, i); BitOfRotr(x, 11, i); BitOfRotr(x, 25, i);
    BitOfRotr(x, 7, i); BitOfRotr(x, 18, i); BitOfShr(x, 3, i);
    BitOfRotr(x, 17, i); BitOfRotr(x, 19, i); BitOfShr(x, 10, i);
    forall j | j >= 32
      ensures Bit(x, j) == 0
    {
      HighBits(x, j);
    }
  }

  /** Words of equal bits are equal, so the laws above fix the functions. */
  lemma {:induction false} SameBits(x: nat, y: nat, k: nat)
    requires x < Pow2(k) && y < Pow2(k)
    requires forall i :: 0 <= i < k ==> Bit(x, i) == Bit(y, i)
    ensures x == y
    decreases k
  {
    if k > 0 {
      assert Bit(x, 0) == Bit(y, 0);
      forall i | 0 <= i < k - 1
        ensures Bit(x / 2, i) == Bit(y / 2, i)
      {
        assert Bit(x, i + 1) == Bit(y, i + 1);
      }
      SameBits(x / 2, y / 2, k - 1);
    }
  }

  /** A block holds its words most significant byte first. */
  lemma WordBytes(block: seq<byte>, t: nat)
    requires |block| == 64 && t < 16
    ensures BigEndian(BlockWord(block, t), 4) == block[4 * t..4 * t + 4]
  {
    hide BigEndian;
    BytesOfWord(block[4 * t], block[4 * t + 1], block[4 * t + 2], block[4 * t + 3]);
    assert block[4 * t..4 * t + 4] == [block[4 * t], block[4 * t + 1], block[4 * t + 2], block[4 * t + 3]];
  }

  lemma BytesOfWord(b3: byte, b2: byte, b1: byte, b0: byte)
    ensures BigEndian(FourBytes(b3, b2, b1, b0), 4) == [b3, b2, b1, b0]
  {
    hide BigEndian;
    var c3, c2, c1, c0 := b3 as int, b2 as int, b1 as int, b0 as int;
    LastByte(c3 * 0x1_0000 + c2 * 0x100 + c1, c0, 3);
    LastByte(c3 * 0x100 + c2, c1, 2);
    LastByte(c3, c2, 1);
    LastByte(0, c3, 0);
  }

  lemma LastByte(high: nat, low: nat, k: nat)
    requires low < 256
    ensures BigEndian(256 * high + low, k + 1) == BigEndian(high, k) + [low] && BigEndian(0, 0) == []
  {
    DivModUnique(256 * high + low, 256, high, low);
  }

  // ----- the equations of section 6.2.2, each with a single reduction modulo 2^32 -----

  lemma ScheduleEquation(block: seq<byte>, t: nat)
    requires |block| == 64 && t < 64
    ensures t < 16 ==> BigEndian(W(block, t), 4) == block[4 * t..4 * t + 4]
    ensures t >= 16 ==> W(block, t) == (SmallSigma1(W(block, t - 2)) + W(block, t - 7)
                                        + SmallSigma0(W(block, t - 15)) + W(block, t - 16)) % 0x1_0000_0000
  {
    hide SmallSigma0, SmallSigma1, BlockWord, BigEndian, Add;
    if t < 16 {
      WordBytes(block, t);
    } else {
      Sum4Agrees(SmallSigma1(W(block, t - 2)), W(block, t - 7), SmallSigma0(W(block, t - 15)), W(block, t - 16));
    }
  }

  lemma RoundEquations(v: Vars, k: word, w: word)
    ensures var r := Round(v, k, w);
            var t1 := v.h + BigSigma1(v.e) + Ch(v.e, v.f, v.g) + k + w;
            var t2 := BigSigma0(v.a) + Maj(v.a, v.b, v.c);
            && r.a == (t1 + t2) % 0x1_0000_0000 && r.b == v.a && r.c == v.b && r.d == v.c
            && r.e == (v.d + t1) % 0x1_0000_0000 && r.f == v.e && r.g == v.f && r.h == v.g
  {
    hide BigSigma0, BigSigma1, Ch, Maj, Add;
    Sum5Agrees(v.h, BigSigma1(v.e), Ch(v.e, v.f, v.g), k, w);
    var t1 := v.h + BigSigma1(v.e) + Ch(v.e, v.f, v.g) + k + w;
    var t2 := BigSigma0(v.a) + Maj(v.a, v.b, v.c);
    LowOfWord(BigSigma0(v.a));
    LowOfWord(Maj(v.a, v.b, v.c));
    SumAgrees(BigSigma0(v.a), Maj(v.a, v.b, v.c));
    SumAgrees(t1, t2);
    LowOfWord(v.d);
    SumAgrees(v.d, t1);
  }

  /** The rounds use the constants and the schedule words in order, and the old hash value is added at the end. */
  lemma CompressEquation(v: Vars, block: seq<byte>, t: nat)
    requires |block| == 64 && t < 64
    ensures Rounds(v, block, 0) == v && Rounds(v, block, t + 1) == Round(Rounds(v, block, t), K(t), W(block, t))
    ensures var r, c := Rounds(v, block, 64), Compress(v, block);
            && c.a == (v.a + r.a) % 0x1_0000_0000 && c.b == (v.b + r.b) % 0x1_0000_0000
            && c.c == (v.c + r.c) % 0x1_0000_0000 && c.d == (v.d + r.d) % 0x1_0000_0000
            && c.e == (v.e + r.e) % 0x1_0000_0000 && c.f == (v.f + r.f) % 0x1_0000_0000
            && c.g == (v.g + r.g) % 0x1_0000_0000 && c.h == (v.h + r.h) % 0x1_0000_0000
  {
    hide Round, W, K;
  }

  // ----- padding and digest as bytes -----

  /** The number that some bytes stand for, most significant first. */
  function Value(s: seq<byte>): nat {
    if s == [] then 0 else 256 * Value(s[..|s| - 1]) + s[|s| - 1]
  }

  lemma {:induction false} BigEndianValue(n: nat, k: nat)
    requires n < Pow2(8 * k)
    ensures Value(BigEndian(n, k)) == n
  {
    if k > 0 {
      assert 8 * k == 8 + 8 * (k - 1);
      Pow2Sum(8, 8 * (k - 1));
      Pow2Values();
      hide Pow2;
      assert n / 256 < Pow2(8 * (k - 1));
      BigEndianValue(n / 256, k - 1);
    }
  }

  /** Byte 0x80, zeros up to the next place for a length, and the length in bits modulo 2^64; never a block too many. */
  lemma PaddingLayout(n: nat)
    ensures var p := Padding(n); var z := |p| - 9;
            && 0 <= z < 64 && (n + |p|) % 64 == 0
            && p[0] == 0x80 && (forall i :: 1 <= i <= z ==> p[i] == 0)
            && Value(p[z + 1..]) == 8 * n % 0x1_0000_0000_0000_0000
  {
    hide BigEndian, ZeroCount, Value;
    var length := 8 * n % 0x1_0000_0000_0000_0000;
    Pow2Values();
    BigEndianValue(length, 8);
    assert Padding(n)[ZeroCount(n) + 1..] == BigEndian(length, 8);
  }

  /** The digest is the eight words in order, four bytes each. */
  lemma DigestLayout(v: Vars)
    ensures var d := Digest(v);
            && Value(d[..4]) == v.a && Value(d[4..8]) == v.b && Value(d[8..12]) == v.c && Value(d[12..16]) == v.d
            && Value(d[16..20]) == v.e && Value(d[20..24]) == v.f && Value(d[24..28]) == v.g && Value(d[28..]) == v.h
  {
    hide BigEndian, Value, Pow2;
    Pow2Values();
    BigEndianValue(v.a, 4); BigEndianValue(v.b, 4); BigEndianValue(v.c, 4); BigEndianValue(v.d, 4);
    BigEndianValue(v.e, 4); BigEndianValue(v.f, 4); BigEndianValue(v.g, 4); BigEndianValue(v.h, 4);
    var d := Digest(v);
    assert d[..4] == BigEndian(v.a, 4) && d[4..8] == BigEndian(v.b, 4) && d[8..12] == BigEndian(v.c, 4);
    assert d[12..16] == BigEndian(v.d, 4) && d[16..20] == BigEndian(v.e, 4) && d[20..24] == BigEndian(v.f, 4);
    assert d[24..28] == BigEndian(v.g, 4) && d[28..] == BigEndian(v.h, 4);
  }
}

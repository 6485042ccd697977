/** The 64-bit word operations of picosha2, and their agreement with the 32-bit words of FIPS 180-4. */
module Picosha2Words {
  import opened Bytes
  import opened Bits
  import opened Sha256Spec

  /** `word_t`: an `unsigned long` of 64 bits. */
  type word_t = x: int | 0 <= x < 0x1_0000_0000_0000_0000

  function Add64(x: word_t, y: word_t): word_t { (x + y) % 0x1_0000_0000_0000_0000 }

  function Not64(x: word_t): word_t { 0x1_0000_0000_0000_0000 - 1 - x }

  function And64(x: word_t, y: word_t): word_t {
    BitwiseFits(And, x, y);
    BitAnd(x, y)
  }

  function Or64(x: word_t, y: word_t): word_t {
    BitwiseFits(Or, x, y);
    BitOr(x, y)
  }

  function Xor64(x: word_t, y: word_t): word_t {
    BitwiseFits(Xor, x, y);
    BitXor(x, y)
  }

  function Shl64(x: word_t, n: nat): word_t { Shl(x, n) % 0x1_0000_0000_0000_0000 }

  function Mask32(x: word_t): word_t { And64(x, 0xffff_ffff) }

  function Ch64(x: word_t, y: word_t, z: word_t): word_t { Xor64(And64(x, y), And64(Not64(x), z)) }

  function Maj64(x: word_t, y: word_t, z: word_t): word_t {
    Xor64(Xor64(And64(x, y), And64(x, z)), And64(y, z))
  }

  function Rotr64(x: word_t, n: nat): word_t
    requires n < 32
  {
    Mask32(Or64(Shr(x, n), Shl64(x, 32 - n)))
  }

  function Bsig0(x: word_t): word_t { Xor64(Xor64(Rotr64(x, 2), Rotr64(x, 13)), Rotr64(x, 22)) }

  function Bsig1(x: word_t): word_t { Xor64(Xor64(Rotr64(x, 6), Rotr64(x, 11)), Rotr64(x, 25)) }

  function Ssig0(x: word_t): word_t { Xor64(Xor64(Rotr64(x, 7), Rotr64(x, 18)), Shr(x, 3)) }

  function Ssig1(x: word_t): word_t { Xor64(Xor64(Rotr64(x, 17), Rotr64(x, 19)), Shr(x, 10)) }

  /** The four bytes from p on, shifted into place and or-ed together. */
  function LoadWord(block: seq<byte>, p: nat): word_t
    requires p + 4 <= |block|
  {
    Or64(Or64(Or64(Shl64(block[p], 24), Shl64(block[p + 1], 16)), Shl64(block[p + 2], 8)), block[p + 3])
  }

  /** `temp1` and `temp2` of a round. */
  function Temp1(e: word_t, f: word_t, g: word_t, h: word_t, k: word_t, w: word_t): word_t {
    Add64(Add64(Add64(Add64(h, Bsig1(e)), Ch64(e, f, g)), k), w)
  }

  function Temp2(a: word_t, b: word_t, c: word_t): word_t { Add64(Bsig0(a), Maj64(a, b, c)) }

  /** The sum that becomes a schedule word once masked. */
  function ScheduleSum(w2: word_t, w7: word_t, w15: word_t, w16: word_t): word_t {
    Add64(Add64(Add64(Ssig1(w2), w7), Ssig0(w15)), w16)
  }

  lemma MaskKeepsLow(x: word_t)
    ensures Mask32(x) == x % 0x1_0000_0000
  {
    Pow2Values();
    MaskIsMod(x, 32);
  }

  lemma LowHalf(op: Op, x: nat, y: nat)
    ensures Bitwise(op, x, y) % 0x1_0000_0000 == Bitwise(op, x % 0x1_0000_0000, y % 0x1_0000_0000)
  {
    Pow2Values();
    BitwiseLow(op, x, y, 32);
  }

  /** Masking after the two 64-bit shifts gives the 32-bit rotation. */
  lemma RotrAgrees(x: word, n: nat)
    requires n < 32
    ensures Rotr64(x, n) == Rotr(x, n)
  {
    hide Bitwise, Shl, Shr, Mask32;
    var s := Shl(x, 32 - n);
    assert s % 0x1_0000_0000_0000_0000 % 0x1_0000_0000 == s % 0x1_0000_0000;
    LowHalf(Or, Shr(x, n), s % 0x1_0000_0000_0000_0000);
    MaskKeepsLow(Or64(Shr(x, n), Shl64(x, 32 - n)));
  }

  lemma SigmasAgree(x: word)
    ensures Bsig0(x) == BigSigma0(x) && Bsig1(x) == BigSigma1(x)
    ensures Ssig0(x) == SmallSigma0(x) && Ssig1(x) == SmallSigma1(x)
  {
    hide Rotr, Rotr64;
    RotrAgrees(x, 2); RotrAgrees(x, 13); RotrAgrees(x, 22);
    RotrAgrees(x, 6); RotrAgrees(x, 11); RotrAgrees(x, 25);
    RotrAgrees(x, 7); RotrAgrees(x, 18);
    RotrAgrees(x, 17); RotrAgrees(x, 19);
  }

  /** The upper half of `~x` never reaches the result: z has a clear upper half to mask it with. */
  lemma ChAgrees(x: word, y: word, z: word)
    ensures Ch64(x, y, z) == Ch(x, y, z)
  {
    hide Bitwise;
    LowHalf(And, Not64(x), z);
    assert Not64(x) % 0x1_0000_0000 == Not(x);
    AndBelow(Not64(x), z);
  }

  lemma {:induction false} AndBelow(x: nat, y: nat)
    ensures BitAnd(x, y) <= y
    decreases y
  {
    if y == 0 {
      AndZero(x);
    } else {
      AndBelow(x / 2, y / 2);
    }
  }

  lemma MajAgrees(x: word, y: word, z: word)
    ensures Maj64(x, y, z) == Maj(x, y, z)
  {
  }

  /** Sums of a few 32-bit words never reach 2^64, so truncating once at the end is enough. */
  lemma SumAgrees(x: nat, y: nat)
    requires x < 0x8_0000_0000 && y < 0x8_0000_0000
    ensures Add64(x, y) == x + y
    ensures Add(x % 0x1_0000_0000, y % 0x1_0000_0000) == (x + y) % 0x1_0000_0000
  {
    var m := 0x1_0000_0000;
    ModShift(x % m + y % m, m, x / m + y / m);
  }

  lemma LowOfWord(x: word)
    ensures x % 0x1_0000_0000 == x
  {
  }

  /** `temp1` is the exact sum; FIPS 180-4 keeps it modulo 2^32. */
  lemma Temp1Agrees(v: Vars, k: word, w: word)
    ensures var t1 := Temp1(v.e, v.f, v.g, v.h, k, w);
            && t1 < 0x5_0000_0000
            && t1 % 0x1_0000_0000 == Add(Add(Add(Add(v.h, BigSigma1(v.e)), Ch(v.e, v.f, v.g)), k), w)
  {
    hide Bsig1, BigSigma1, Ch64, Ch, Add, Add64;
    SigmasAgree(v.e);
    ChAgrees(v.e, v.f, v.g);
    Sum5Agrees(v.h, BigSigma1(v.e), Ch(v.e, v.f, v.g), k, w);
  }

  lemma Sum5Agrees(a: word, b: word, c: word, d: word, e: word)
    ensures Add64(Add64(Add64(Add64(a, b), c), d), e) == a + b + c + d + e
    ensures Add(Add(Add(Add(a, b), c), d), e) == (a + b + c + d + e) % 0x1_0000_0000
  {
    hide Add, Add64;
    LowOfWord(a); LowOfWord(b); LowOfWord(c); LowOfWord(d); LowOfWord(e);
    SumAgrees(a, b);
    SumAgrees(a + b, c);
    SumAgrees(a + b + c, d);
    SumAgrees(a + b + c + d, e);
  }

  lemma Temp2Agrees(v: Vars)
    ensures var t2 := Temp2(v.a, v.b, v.c);
            && t2 < 0x2_0000_0000
            && t2 % 0x1_0000_0000 == Add(BigSigma0(v.a), Maj(v.a, v.b, v.c))
  {
    hide Bsig0, BigSigma0, Maj64, Maj, Add, Add64;
    SigmasAgree(v.a);
    MajAgrees(v.a, v.b, v.c);
    LowOfWord(BigSigma0(v.a));
    LowOfWord(Maj(v.a, v.b, v.c));
    SumAgrees(BigSigma0(v.a), Maj(v.a, v.b, v.c));
  }

  /** One round on 64-bit words, masked only where e and a are formed, is one round of section 6.2.2. */
  lemma RoundAgrees(v: Vars, k: word, w: word)
    ensures var t1 := Temp1(v.e, v.f, v.g, v.h, k, w);
            && Mask32(Add64(v.d, t1)) == Round(v, k, w).e
            && Mask32(Add64(t1, Temp2(v.a, v.b, v.c))) == Round(v, k, w).a
  {
    hide Temp1, Temp2, BigSigma0, BigSigma1, Ch, Maj, Mask32, Add, Add64;
    var t1, t2 := Temp1(v.e, v.f, v.g, v.h, k, w), Temp2(v.a, v.b, v.c);
    Temp1Agrees(v, k, w);
    Temp2Agrees(v);
    LowOfWord(v.d);
    SumAgrees(v.d, t1);
    SumAgrees(t1, t2);
    MaskKeepsLow(Add64(v.d, t1));
    MaskKeepsLow(Add64(t1, t2));
  }

  /** One step of the message schedule on 64-bit words. */
  lemma ScheduleAgrees(w2: word, w7: word, w15: word, w16: word)
    ensures Mask32(ScheduleSum(w2, w7, w15, w16)) == NextW(w2, w7, w15, w16)
  {
    hide Ssig0, Ssig1, SmallSigma0, SmallSigma1, Mask32, Add, Add64;
    SigmasAgree(w2);
    SigmasAgree(w15);
    MaskKeepsLow(ScheduleSum(w2, w7, w15, w16));
    Sum4Agrees(SmallSigma1(w2), w7, SmallSigma0(w15), w16);
  }

  lemma Sum4Agrees(a: word, b: word, c: word, d: word)
    ensures Add64(Add64(Add64(a, b), c), d) == a + b + c + d
    ensures Add(Add(Add(a, b), c), d) == (a + b + c + d) % 0x1_0000_0000
  {
    hide Add, Add64;
    LowOfWord(a); LowOfWord(b); LowOfWord(c); LowOfWord(d);
    SumAgrees(a, b);
    SumAgrees(a + b, c);
    SumAgrees(a + b + c, d);
  }

  lemma LoadAgrees(block: seq<byte>, t: nat)
    requires |block| == 64 && t < 16
    ensures LoadWord(block, 4 * t) == BlockWord(block, t)
  {
    OrBytes(block[4 * t], block[4 * t + 1], block[4 * t + 2], block[4 * t + 3]);
  }

  /** Four shifted bytes do not overlap, so or-ing them adds them. */
  lemma OrBytes(b3: byte, b2: byte, b1: byte, b0: byte)
    ensures Or64(Or64(Or64(Shl64(b3, 24), Shl64(b2, 16)), Shl64(b1, 8)), b0) == FourBytes(b3, b2, b1, b0)
  {
    hide Bitwise, Shl64;
    Pow2Values();
    ShlByte(b3, 24);
    ShlByte(b2, 16);
    ShlByte(b1, 8);
    OrDisjoint(b3, b2 * 0x1_0000, 24);
    OrDisjoint(b3 * 0x100 + b2, b1 * 0x100, 16);
    OrDisjoint(b3 * 0x1_0000 + b2 * 0x100 + b1, b0, 8);
  }

  lemma ShlByte(b: byte, n: nat)
    requires n in {8, 16, 24}
    ensures Shl64(b, n) == b * Pow2(n)
  {
    hide Shl, Pow2;
    ShlIsProduct(b, n);
    Pow2Values();
    if n == 8 {
      DivModUnique(b * 0x100, 0x1_0000_0000_0000_0000, 0, b * 0x100);
    } else if n == 16 {
      DivModUnique(b * 0x1_0000, 0x1_0000_0000_0000_0000, 0, b * 0x1_0000);
    } else {
      DivModUnique(b * 0x100_0000, 0x1_0000_0000_0000_0000, 0, b * 0x100_0000);
    }
  }

  lemma {:induction false} ShlIsProduct(x: nat, n: nat)
    ensures Shl(x, n) == x * Pow2(n)
  {
    if n != 0 {
      ShlIsProduct(x, n - 1);
      assert 2 * (x * Pow2(n - 1)) == x * (2 * Pow2(n - 1));
    }
  }
}

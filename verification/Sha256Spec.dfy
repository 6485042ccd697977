/** SHA-256 as FIPS 180-4 defines it: 32-bit words, one message, one pass. */
module Sha256Spec {
  import opened Bytes
  import opened Bits

  type word = x: int | 0 <= x < 0x1_0000_0000

  /** Addition modulo 2^32. */
  function Add(x: int, y: int): word { (x + y) % 0x1_0000_0000 }

  function Not(x: word): word { 0x1_0000_0000 - 1 - x }

  function AndW(x: word, y: word): word {
    BitwiseFits(And, x, y);
    BitAnd(x, y)
  }

  function OrW(x: word, y: word): word {
    BitwiseFits(Or, x, y);
    BitOr(x, y)
  }

  function XorW(x: word, y: word): word {
    BitwiseFits(Xor, x, y);
    BitXor(x, y)
  }

  // Section 4.1.2: the six logical functions.

  /** ROTR: circular right shift. */
  function Rotr(x: word, n: nat): word
    requires n < 32
  {
    OrW(Shr(x, n), Shl(x, 32 - n) % 0x1_0000_0000)
  }

  function Ch(x: word, y: word, z: word): word { XorW(AndW(x, y), AndW(Not(x), z)) }

  function Maj(x: word, y: word, z: word): word { XorW(XorW(AndW(x, y), AndW(x, z)), AndW(y, z)) }

  function BigSigma0(x: word): word { XorW(XorW(Rotr(x, 2), Rotr(x, 13)), Rotr(x, 22)) }

  function BigSigma1(x: word): word { XorW(XorW(Rotr(x, 6), Rotr(x, 11)), Rotr(x, 25)) }

  function SmallSigma0(x: word): word { XorW(XorW(Rotr(x, 7), Rotr(x, 18)), Shr(x, 3)) }

  function SmallSigma1(x: word): word { XorW(XorW(Rotr(x, 17), Rotr(x, 19)), Shr(x, 10)) }

  /** Section 4.2.2: the round constants, in rows of eight. */
  function KRow(r: nat): (row: seq<word>)
    requires r < 8
    ensures |row| == 8
  {
    if r == 0 then [0x428a2f98, 0x71374491, 0xb5c0fbcf, 0xe9b5dba5, 0x3956c25b, 0x59f111f1, 0x923f82a4, 0xab1c5ed5]
    else if r == 1 then [0xd807aa98, 0x12835b01, 0x243185be, 0x550c7dc3, 0x72be5d74, 0x80deb1fe, 0x9bdc06a7, 0xc19bf174]
    else if r == 2 then [0xe49b69c1, 0xefbe4786, 0x0fc19dc6, 0x240ca1cc, 0x2de92c6f, 0x4a7484aa, 0x5cb0a9dc, 0x76f988da]
    else if r == 3 then [0x983e5152, 0xa831c66d, 0xb00327c8, 0xbf597fc7, 0xc6e00bf3, 0xd5a79147, 0x06ca6351, 0x14292967]
    else if r == 4 then [0x27b70a85, 0x2e1b2138, 0x4d2c6dfc, 0x53380d13, 0x650a7354, 0x766a0abb, 0x81c2c92e, 0x92722c85]
    else if r == 5 then [0xa2bfe8a1, 0xa81a664b, 0xc24b8b70, 0xc76c51a3, 0xd192e819, 0xd6990624, 0xf40e3585, 0x106aa070]
    else if r == 6 then [0x19a4c116, 0x1e376c08, 0x2748774c, 0x34b0bcb5, 0x391c0cb3, 0x4ed8aa4a, 0x5b9cca4f, 0x682e6ff3]
    else [0x748f82ee, 0x78a5636f, 0x84c87814, 0x8cc70208, 0x90befffa, 0xa4506ceb, 0xbef9a3f7, 0xc67178f2]
  }

  function K(t: nat): word
    requires t < 64
  {
    KRow(t / 8)[t % 8]
  }

  /** The eight working variables, and equally the eight words of a hash value. */
  datatype Vars = Vars(a: word, b: word, c: word, d: word, e: word, f: word, g: word, h: word)

  /** Section 5.3.3: the initial hash value. */
  function InitialHash(): Vars {
    Vars(0x6a09e667, 0xbb67ae85, 0x3c6ef372, 0xa54ff53a, 0x510e527f, 0x9b05688c, 0x1f83d9ab, 0x5be0cd19)
  }

  /** Section 5.2.1: word t of a block, most significant byte first. */
  function BlockWord(block: seq<byte>, t: nat): word
    requires |block| == 64 && t < 16
  {
    FourBytes(block[4 * t], block[4 * t + 1], block[4 * t + 2], block[4 * t + 3])
  }

  function FourBytes(b3: int, b2: int, b1: int, b0: int): word
    requires 0 <= b3 < 256 && 0 <= b2 < 256 && 0 <= b1 < 256 && 0 <= b0 < 256
  {
    b3 * 0x100_0000 + b2 * 0x1_0000 + b1 * 0x100 + b0
  }

  /** Section 6.2.2, step 1: the message schedule. */
  function W(block: seq<byte>, t: nat): word
    requires |block| == 64 && t < 64
  {
    if t < 16 then BlockWord(block, t)
    else NextW(W(block, t - 2), W(block, t - 7), W(block, t - 15), W(block, t - 16))
  }

  function NextW(w2: word, w7: word, w15: word, w16: word): word {
    Add(Add(Add(SmallSigma1(w2), w7), SmallSigma0(w15)), w16)
  }

  /** Section 6.2.2, step 3: one round. */
  function Round(v: Vars, k: word, w: word): Vars {
    var t1 := Add(Add(Add(Add(v.h, BigSigma1(v.e)), Ch(v.e, v.f, v.g)), k), w);
    var t2 := Add(BigSigma0(v.a), Maj(v.a, v.b, v.c));
    Vars(Add(t1, t2), v.a, v.b, v.c, Add(v.d, t1), v.e, v.f, v.g)
  }

  /** The working variables after the first t rounds. */
  function Rounds(v: Vars, block: seq<byte>, t: nat): Vars
    requires |block| == 64 && t <= 64
  {
    if t == 0 then v else Round(Rounds(v, block, t - 1), K(t - 1), W(block, t - 1))
  }

  /** Section 6.2.2: the hash value after one more block. */
  function Compress(v: Vars, block: seq<byte>): Vars
    requires |block| == 64
  {
    var r := Rounds(v, block, 64);
    Vars(Add(v.a, r.a), Add(v.b, r.b), Add(v.c, r.c), Add(v.d, r.d),
         Add(v.e, r.e), Add(v.f, r.f), Add(v.g, r.g), Add(v.h, r.h))
  }

  /** The hash value after every whole block of `data`, in order; a last partial block is left out. */
  function Absorb(v: Vars, data: seq<byte>): Vars
    decreases |data|
  {
    if |data| < 64 then v else Absorb(Compress(v, data[..64]), data[64..])
  }

  /** The k low bytes of n, most significant first. */
  function BigEndian(n: nat, k: nat): (s: seq<byte>)
    ensures |s| == k
  {
    if k == 0 then [] else BigEndian(n / 256, k - 1) + [n % 256]
  }

  /** Section 5.1.1: the least number of zero bytes that, after the byte 0x80, leaves 8 for the length. */
  function ZeroCount(n: nat): (k: nat)
    ensures (n + 1 + k) % 64 == 56 && k < 64
  {
    (55 - n) % 64
  }

  /** Section 5.1.1, with the bit length taken modulo 2^64. */
  function Padding(n: nat): (s: seq<byte>)
    ensures (n + |s|) % 64 == 0
  {
    [0x80] + Zeros(ZeroCount(n)) + BigEndian(8 * n % 0x1_0000_0000_0000_0000, 8)
  }

  /** The message digest: the eight words in order, each most significant byte first. */
  function Digest(v: Vars): (s: seq<byte>)
    ensures |s| == 32
  {
    BigEndian(v.a, 4) + BigEndian(v.b, 4) + BigEndian(v.c, 4) + BigEndian(v.d, 4) +
    BigEndian(v.e, 4) + BigEndian(v.f, 4) + BigEndian(v.g, 4) + BigEndian(v.h, 4)
  }

  /** SHA-256 of a message. */
  function Sha256(m: seq<byte>): (s: seq<byte>)
    ensures |s| == 32
  {
    Digest(Absorb(InitialHash(), m + Padding(|m|)))
  }

  /** Absorbing is a left fold: a message can be cut at any block boundary. */
  lemma {:induction false} AbsorbConcat(v: Vars, x: seq<byte>, y: seq<byte>)
    requires |x| % 64 == 0
    ensures Absorb(v, x + y) == Absorb(Absorb(v, x), y)
    decreases |x|
  {
    hide Compress;
    if x == [] {
      assert x + y == y;
    } else {
      assert (x + y)[..64] == x[..64];
      assert (x + y)[64..] == x[64..] + y;
      AbsorbConcat(Compress(v, x[..64]), x[64..], y);
    }
  }
}

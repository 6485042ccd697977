/** The streaming hasher of picosha2 and its one-shot wrappers. */
module Picosha2 {
  import opened Bytes
  import opened Bits
  import opened Sha256Spec
  import opened Picosha2Words
  import opened Picosha2Block
  import opened Picosha2Length
  import opened HashText

  /** The hash value after the whole blocks of a message that is still growing. */
  ghost function Absorbed(message: seq<byte>, buffered: nat): Vars
    requires buffered <= |message|
  {
    Absorb(InitialHash(), message[..|message| - buffered])
  }

  class Hash256OneByOne {
    var buffer: seq<byte>
    const digits: array<word_t>
    const h: array<word_t>
    /** Every byte processed so far. */
    ghost var message: seq<byte>

    ghost predicate Valid()
      reads this, digits, h
    {
      && digits.Length == 4 && h.Length == 8 && digits != h
      && Counter(digits[..])
      && DigitsValue(digits[..]) == |message| % 0x1_0000_0000_0000_0000
      && |buffer| < 64 && |buffer| <= |message| && (|message| - |buffer|) % 64 == 0
      && buffer == message[|message| - |buffer|..]
      && h[..] == Words(Absorbed(message, |buffer|))
    }

    /** The state after `Finish`: the hash words hold the SHA-256 of the message. */
    ghost predicate Finished()
      reads this, h
    {
      h.Length == 8 && h[..] == Words(Absorb(InitialHash(), message + Padding(|message|)))
    }

    constructor ()
      ensures Valid() && message == [] && fresh(digits) && fresh(h)
    {
      digits := new word_t[4](_ => 0);
      h := new word_t[8](i requires 0 <= i < 8 => Words(InitialHash())[i]);
      buffer := [];
      message := [];
      new;
      assert h[..] == Words(InitialHash());
      assert Absorbed([], 0) == InitialHash();
    }

    /** Appends a piece of the message, hashes the whole blocks and keeps the rest buffered. */
    method Process(piece: seq<byte>)
      requires Valid()
      modifies this, digits, h
      ensures Valid() && message == old(message) + piece
    {
      hide Absorb, Words, Counter, DigitsValue, InitialHash;
      ghost var prefix, full := message[..|message| - |buffer|], message + piece;
      AddToDataLength(digits, |piece| % 0x1_0000_0000_0000_0000);
      LengthModulo(|message|, |piece|);
      ghost var data := buffer + piece;
      assert full == prefix + data;
      buffer := buffer + piece;
      var i := HashWholeBlocks(h, buffer, Absorb(InitialHash(), prefix));
      Continue(prefix, data, i);
      MultiplesOf64(|prefix|, i);
      message := full;
      buffer := buffer[i..];
      assert |message| - |buffer| == |prefix| + i;
    }

    /** Pads the buffered tail and hashes the last one or two blocks. */
    method Finish()
      requires Valid()
      modifies h
      ensures Finished() && message == old(message)
    {
      hide Absorb, Words, InitialHash, BigEndian, Padding, Counter, DigitsValue;
      Residual(|message|, |buffer|);
      HashTail(h, digits, buffer, Absorbed(message, |buffer|), |message|);
      WholeMessage(InitialHash(), message, |buffer|);
    }

    /** Copies the digest, or as much of it as fits, to the front of `out`. */
    method GetHashBytes(out: array<byte>)
      requires Finished()
      modifies out
      ensures var n := if out.Length < 32 then out.Length else 32;
              out[..] == Sha256(message)[..n] + old(out[n..])
    {
      hide Absorb, Digest, Shr, BigEndian, Padding;
      ghost var v := Absorb(InitialHash(), message + Padding(|message|));
      ghost var words := h[..];
      var first := 0;
      for k := 0 to 8
        invariant h[..] == words
        invariant first == if 4 * k < out.Length then 4 * k else out.Length
        invariant forall p :: 0 <= p < first ==> out[p] == Digest(v)[p]
        invariant forall p :: first <= p < out.Length ==> out[p] == old(out[p])
      {
        var i := 0;
        while i < 4 && first != out.Length
          invariant 0 <= i <= 4
          invariant h[..] == words
          invariant first == if 4 * k + i < out.Length then 4 * k + i else out.Length
          invariant forall p :: 0 <= p < first ==> out[p] == Digest(v)[p]
          invariant forall p :: first <= p < out.Length ==> out[p] == old(out[p])
        {
          assert h[k] == words[k];
          DigestByte(v, k, i);
          out[first] := Shr(h[k], 24 - 8 * i) % 256;
          first := first + 1;
          i := i + 1;
        }
      }
    }
  }

  /** The loop of `process`: hashes the leading whole blocks of `data` and returns where it stopped. */
  method HashWholeBlocks(h: array<word_t>, data: seq<byte>, ghost v: Vars) returns (i: nat)
    requires h.Length == 8 && h[..] == Words(v)
    modifies h
    ensures i <= |data| < i + 64 && i % 64 == 0
    ensures h[..] == Words(Absorb(v, data[..i]))
  {
    hide Absorb, Words, Compress;
    AbsorbNothing(v, data);
    i := 0;
    while i + 64 <= |data|
      invariant 0 <= i <= |data| && i % 64 == 0
      invariant h[..] == Words(Absorb(v, data[..i]))
    {
      Hash256Block(h, data[i..i + 64], Absorb(v, data[..i]));
      NextBlock(v, data, i);
      i := i + 64;
    }
  }

  /** The body of `finish`: one padded block when at most 55 bytes remain, two otherwise. */
  method HashTail(h: array<word_t>, digits: array<word_t>, tail: seq<byte>, ghost v: Vars, ghost n: nat)
    requires h.Length == 8 && h[..] == Words(v)
    requires digits.Length == 4 && digits != h && Counter(digits[..])
    requires DigitsValue(digits[..]) == n % 0x1_0000_0000_0000_0000
    requires |tail| == n % 64
    modifies h
    ensures h[..] == Words(Absorb(v, tail + Padding(n)))
  {
    hide Absorb, Words, Counter, DigitsValue, Compress, BigEndian, Padding;
    var temp := new byte[64](_ => 0);
    var remains := |tail|;
    Copy(tail, temp);
    temp[remains] := 0x80;
    if remains > 55 {
      Fill(temp, remains + 1, 64);
      ghost var first := temp[..];
      Hash256Block(h, temp[..], v);
      Fill(temp, 0, 64 - 4);
      assert temp[..56] == Zeros(56);
      LastBlock(h, digits, temp, Compress(v, first), n);
      TwoBlocks(v, first, Zeros(56) + LengthBytes(n));
      PaddingTwo(tail, n);
      assert first == tail + [0x80] + Zeros(63 - remains);
    } else {
      Fill(temp, remains + 1, 64 - 4);
      ghost var front := tail + [0x80] + Zeros(55 - remains);
      assert temp[..56] == front;
      LastBlock(h, digits, temp, v, n);
      OneBlock(v, front + LengthBytes(n));
      PaddingOne(tail, n);
    }
  }

  /** The eight bytes of the message length in bits. */
  function LengthBytes(n: nat): (s: seq<byte>)
    ensures |s| == 8
  {
    BigEndian(8 * n % 0x1_0000_0000_0000_0000, 8)
  }

  /** Completes the block in `temp` with the length and hashes it. */
  method LastBlock(h: array<word_t>, digits: array<word_t>, temp: array<byte>, ghost v: Vars, ghost n: nat)
    requires h.Length == 8 && h[..] == Words(v) && temp.Length == 64
    requires digits.Length == 4 && digits != h && Counter(digits[..])
    requires DigitsValue(digits[..]) == n % 0x1_0000_0000_0000_0000
    modifies h, temp
    ensures |old(temp[..56]) + LengthBytes(n)| == 64
    ensures h[..] == Words(Compress(v, old(temp[..56]) + LengthBytes(n)))
  {
    hide Words, Counter, DigitsValue, Compress, BigEndian;
    ghost var front, words := temp[..56], h[..];
    WriteDataBitLength(digits, temp, 56);
    assert h[..] == words;
    LengthModulo(n, 0);
    SplitAt56(temp[..], front);
    Hash256Block(h, temp[..], v);
  }

  lemma SplitAt56(block: seq<byte>, front: seq<byte>)
    requires |block| == 64 && block[..56] == front
    ensures block == front + block[56..64]
  {
  }

  lemma AbsorbNothing(v: Vars, data: seq<byte>)
    ensures Absorb(v, data[..0]) == v
  {
    hide Compress;
  }

  /** Absorbing the prefix and then i more bytes is absorbing both. */
  lemma Continue(prefix: seq<byte>, data: seq<byte>, i: nat)
    requires |prefix| % 64 == 0 && i <= |data|
    ensures Absorb(Absorb(InitialHash(), prefix), data[..i]) == Absorb(InitialHash(), (prefix + data)[..|prefix| + i])
    ensures data[i..] == (prefix + data)[|prefix| + i..]
  {
    hide Absorb, InitialHash;
    AbsorbConcat(InitialHash(), prefix, data[..i]);
    assert (prefix + data)[..|prefix| + i] == prefix + data[..i];
  }

  /** `std::copy` to the front of a buffer. */
  method Copy(source: seq<byte>, target: array<byte>)
    requires |source| <= target.Length
    modifies target
    ensures target[..] == source + old(target[|source|..])
  {
    for i := 0 to |source|
      invariant target[..i] == source[..i]
      invariant target[i..] == old(target[i..])
    {
      target[i] := source[i];
    }
  }

  /** `std::fill` of a range with zero. */
  method Fill(target: array<byte>, from: nat, to: nat)
    requires from <= to <= target.Length
    modifies target
    ensures target[..] == old(target[..from]) + Zeros(to - from) + old(target[to..])
  {
    for i := from to to
      invariant forall k :: 0 <= k < target.Length ==> target[k] == if from <= k < i then 0 else old(target[k])
    {
      target[i] := 0;
    }
  }

  lemma MultiplesOf64(x: nat, y: nat)
    requires x % 64 == 0 && y % 64 == 0
    ensures (x + y) % 64 == 0
  {
  }

  lemma Residual(n: nat, buffered: nat)
    requires buffered <= n && buffered < 64 && (n - buffered) % 64 == 0
    ensures buffered == n % 64
  {
    DivModUnique(n, 64, (n - buffered) / 64, buffered);
  }

  lemma LengthModulo(n: nat, k: nat)
    ensures (n % 0x1_0000_0000_0000_0000 + k % 0x1_0000_0000_0000_0000) % 0x1_0000_0000_0000_0000
         == (n + k) % 0x1_0000_0000_0000_0000
    ensures 8 * (n % 0x1_0000_0000_0000_0000) % 0x1_0000_0000_0000_0000 == 8 * n % 0x1_0000_0000_0000_0000
  {
    var m, p, q := 0x1_0000_0000_0000_0000, n / 0x1_0000_0000_0000_0000, k / 0x1_0000_0000_0000_0000;
    assert n == m * p + n % m && k == m * q + k % m;
    ModShift(n % m + k % m, m, p + q);
    ModShift(8 * (n % m), m, 8 * p);
  }

  lemma NextBlock(v: Vars, data: seq<byte>, p: nat)
    requires p % 64 == 0 && p + 64 <= |data|
    ensures Absorb(v, data[..p + 64]) == Compress(Absorb(v, data[..p]), data[p..p + 64])
  {
    hide Absorb, Compress;
    assert data[..p + 64] == data[..p] + data[p..p + 64];
    AbsorbConcat(v, data[..p], data[p..p + 64]);
    OneBlock(Absorb(v, data[..p]), data[p..p + 64]);
  }

  lemma OneBlock(v: Vars, block: seq<byte>)
    requires |block| == 64
    ensures Absorb(v, block) == Compress(v, block)
  {
    hide Compress;
    assert block[..64] == block;
    assert Absorb(Compress(v, block), block[64..]) == Compress(v, block);
  }

  lemma TwoBlocks(v: Vars, first: seq<byte>, second: seq<byte>)
    requires |first| == 64 && |second| == 64
    ensures Absorb(v, first + second) == Compress(Compress(v, first), second)
  {
    OneBlock(v, first);
    OneBlock(Compress(v, first), second);
    AbsorbConcat(v, first, second);
  }

  /** Section 5.1.1 when the length still fits: at most 55 bytes remain. */
  lemma PaddingOne(tail: seq<byte>, n: nat)
    requires |tail| == n % 64 <= 55
    ensures tail + Padding(n) == tail + [0x80] + Zeros(55 - |tail|) + LengthBytes(n)
  {
    hide LengthBytes, BigEndian, ZeroCount;
    ZerosWhenShort(n);
    PaddingParts(n);
  }

  /** Section 5.1.1 when it does not: the padding spills into a second block. */
  lemma PaddingTwo(tail: seq<byte>, n: nat)
    requires |tail| == n % 64 > 55
    ensures tail + Padding(n) == tail + [0x80] + Zeros(63 - |tail|) + (Zeros(56) + LengthBytes(n))
  {
    hide LengthBytes, BigEndian, ZeroCount, Padding;
    ZerosWhenLong(n);
    PaddingParts(n);
    assert Zeros(ZeroCount(n)) == Zeros(63 - |tail|) + Zeros(56);
  }

  lemma PaddingParts(n: nat)
    ensures Padding(n) == [0x80] + Zeros(ZeroCount(n)) + LengthBytes(n)
  {
    hide BigEndian, ZeroCount;
  }

  lemma ZerosWhenShort(n: nat)
    requires n % 64 <= 55
    ensures ZeroCount(n) == 55 - n % 64
  {
    DivModUnique(55 - n, 64, -(n / 64), 55 - n % 64);
  }

  lemma ZerosWhenLong(n: nat)
    requires n % 64 > 55
    ensures ZeroCount(n) == 119 - n % 64
  {
    DivModUnique(55 - n, 64, -(n / 64) - 1, 119 - n % 64);
  }

  lemma WholeMessage(v: Vars, message: seq<byte>, buffered: nat)
    requires buffered <= |message| && (|message| - buffered) % 64 == 0
    ensures Absorb(v, message + Padding(|message|))
         == Absorb(Absorb(v, message[..|message| - buffered]), message[|message| - buffered..] + Padding(|message|))
  {
    hide Absorb, Padding;
    var p := |message| - buffered;
    AbsorbConcat(v, message[..p], message[p..] + Padding(|message|));
    assert message + Padding(|message|) == message[..p] + (message[p..] + Padding(|message|));
  }

  /** Byte i of word k, selected by a right shift, is byte 4k + i of the digest. */
  lemma DigestByte(v: Vars, k: nat, i: nat)
    requires k < 8 && i < 4
    ensures Shr(Words(v)[k], 24 - 8 * i) % 256 == Digest(v)[4 * k + i]
  {
    hide Shr, BigEndian;
    var x := Words(v)[k];
    WordByte(x, i);
    assert Digest(v)[4 * k..4 * k + 4] == BigEndian(x, 4);
    assert Digest(v)[4 * k + i] == Digest(v)[4 * k..4 * k + 4][i];
  }

  lemma WordByte(x: word, i: nat)
    requires i < 4
    ensures Shr(x, 24 - 8 * i) % 256 == BigEndian(x, 4)[i]
  {
    hide Shr, Pow2, BigEndian;
    Pow2Values();
    SmallPowers();
    FourDigits(x);
    if i == 0 {
      ShrIs(x, 24);
    } else if i == 1 {
      ShrIs(x, 16);
    } else if i == 2 {
      ShrIs(x, 8);
    } else {
      ShrIs(x, 0);
    }
  }

  lemma FourDigits(x: nat)
    ensures BigEndian(x, 4) == [x / 0x100_0000 % 256, x / 0x1_0000 % 256, x / 0x100 % 256, x % 256]
  {
    OneDigit(x, 3);
    OneDigit(x / 0x100, 2);
    OneDigit(x / 0x100 / 0x100, 1);
    OneDigit(x / 0x100 / 0x100 / 0x100, 0);
    assert x / 0x100 / 0x100 == x / 0x1_0000 && x / 0x1_0000 / 0x100 == x / 0x100_0000;
  }

  lemma OneDigit(x: nat, k: nat)
    ensures BigEndian(x, k + 1) == BigEndian(x / 0x100, k) + [x % 256] && BigEndian(x, 0) == []
  {
  }

  /** Hashes a random-access range: one piece. */
  method Hash256(data: seq<byte>, out: array<byte>)
    modifies out
    ensures var n := if out.Length < 32 then out.Length else 32;
            out[..] == Sha256(data)[..n] + old(out[n..])
  {
    hide Absorb, Padding, Sha256, Hash256OneByOne.Valid, Hash256OneByOne.Finished;
    var hasher := new Hash256OneByOne();
    hasher.Process(data);
    assert hasher.message == data;
    hasher.Finish();
    hasher.GetHashBytes(out);
  }

  /** Hashes a single-pass input range, cut into pieces of `bufferSize` bytes. */
  method Hash256Buffered(data: seq<byte>, out: array<byte>, bufferSize: int)
    requires bufferSize > 0
    modifies out
    ensures var n := if out.Length < 32 then out.Length else 32;
            out[..] == Sha256(data)[..n] + old(out[n..])
  {
    hide Absorb, Padding, Sha256, Hash256OneByOne.Valid, Hash256OneByOne.Finished;
    var buffer := new byte[bufferSize];
    var hasher := new Hash256OneByOne();
    var first := 0;
    while first != |data|
      invariant 0 <= first <= |data|
      invariant hasher.Valid() && hasher.message == data[..first]
      invariant fresh(hasher) && fresh(hasher.digits) && fresh(hasher.h)
      invariant hasher.digits as object != buffer && hasher.h as object != buffer
      invariant out[..] == old(out[..])
    {
      ghost var start := first;
      var size := bufferSize;
      var i := 0;
      while i != bufferSize
        invariant 0 <= i <= bufferSize && first == start + i <= |data|
        invariant buffer[..i] == data[start..first]
        invariant size == bufferSize
        invariant hasher.Valid() && hasher.message == data[..start]
        invariant out[..] == old(out[..])
      {
        if first == |data| {
          size := i;
          break;
        }
        buffer[i] := data[first];
        i := i + 1;
        first := first + 1;
      }
      assert data[..first] == data[..start] + data[start..first];
      hasher.Process(buffer[..size]);
    }
    assert hasher.message == data;
    hasher.Finish();
    hasher.GetHashBytes(out);
  }

  /** The concatenation of some pieces. */
  function Joined(pieces: seq<seq<byte>>): seq<byte> {
    if pieces == [] then [] else Joined(pieces[..|pieces| - 1]) + pieces[|pieces| - 1]
  }

  /** A caller that processes a message piece by piece: the cuts, empty pieces included, do not matter. */
  method HashPieces(pieces: seq<seq<byte>>, out: array<byte>)
    requires out.Length == 32
    modifies out
    ensures out[..] == Sha256(Joined(pieces))
  {
    hide Absorb, Padding, Sha256, Joined, Hash256OneByOne.Valid, Hash256OneByOne.Finished;
    var hasher := new Hash256OneByOne();
    JoinedAll(pieces);
    for i := 0 to |pieces|
      invariant hasher.Valid() && hasher.message == Joined(pieces[..i])
      invariant fresh(hasher) && fresh(hasher.digits) && fresh(hasher.h)
    {
      JoinedStep(pieces, i);
      hasher.Process(pieces[i]);
    }
    hasher.Finish();
    hasher.GetHashBytes(out);
    assert Sha256(Joined(pieces))[..32] == Sha256(Joined(pieces));
  }

  lemma JoinedStep(pieces: seq<seq<byte>>, i: nat)
    requires i < |pieces|
    ensures Joined(pieces[..i + 1]) == Joined(pieces[..i]) + pieces[i]
  {
    assert pieces[..i + 1][..i] == pieces[..i];
  }

  lemma JoinedAll(pieces: seq<seq<byte>>)
    ensures Joined(pieces[..0]) == [] && Joined(pieces[..|pieces|]) == Joined(pieces)
  {
    assert pieces[..|pieces|] == pieces;
  }

  /** `hash256_hex_string`, which `hash_sha256` returns. */
  method Hash256HexString(src: Str) returns (hex: Str)
    ensures hex == HashSha256(src)
  {
    hide Sha256, Hex;
    var hashed := new byte[32];
    Hash256(src, hashed);
    assert hashed[..] == Sha256(src);
    hex := OutputHex(hashed[..]);
  }
}

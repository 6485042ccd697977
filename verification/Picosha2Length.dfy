/** The 4 x 16-bit length counter of picosha2 and its big-endian writer. */
module Picosha2Length {
  import opened Bytes
  import opened Bits
  import opened Sha256Spec
  import opened Picosha2Words

  /** The number that four digits stand for, least significant digit first. */
  function DigitsValue(d: seq<word_t>): int
    requires |d| == 4
  {
    Weighted(d[0], d[1], d[2], d[3])
  }

  function Weighted(d0: int, d1: int, d2: int, d3: int): int {
    d0 + 0x1_0000 * d1 + 0x1_0000_0000 * d2 + 0x1_0000_0000_0000 * d3
  }

  /** Four digits in range: what the counter holds between calls. */
  ghost predicate Counter(d: seq<word_t>) {
    |d| == 4 && forall i :: 0 <= i < 4 ==> d[i] < 0x1_0000
  }

  /** What a carry into digit i is worth. */
  ghost function CarryValue(c: int, i: nat): int
    requires i <= 4
  {
    if i == 0 then c else if i == 1 then 0x1_0000 * c else if i == 2 then 0x1_0000_0000 * c
    else if i == 3 then 0x1_0000_0000_0000 * c else 0x1_0000_0000_0000_0000 * c
  }

  /** Digits and pending carry together are worth y modulo 2^64. */
  ghost predicate WorthModulo(d: seq<word_t>, c: int, i: nat, y: int)
    requires |d| == 4 && i <= 4
  {
    (DigitsValue(d) + CarryValue(c, i) - y) % 0x1_0000_0000_0000_0000 == 0
  }

  /** Adds n to the counter in place, carrying from digit to digit and stopping at the first without a carry. */
  method AddToDataLength(digits: array<word_t>, n: word_t)
    requires digits.Length == 4 && Counter(digits[..])
    modifies digits
    ensures Counter(digits[..])
    ensures DigitsValue(digits[..]) == (old(DigitsValue(digits[..])) + n) % 0x1_0000_0000_0000_0000
  {
    hide DigitsValue, Add64, WorthModulo;
    ghost var y := DigitsValue(digits[..]) + n;
    ghost var d := digits[..];
    var carry: word_t := 0;
    digits[0] := Add64(digits[0], n);
    FirstAddition(d, digits[..], n);
    d := digits[..];
    var i := 0;
    while i < 4
      invariant 0 <= i <= 4
      invariant d == digits[..]
      invariant carry < 0x1_0000_0000_0000 && (i == 0 ==> carry == 0)
      invariant forall k :: 0 <= k < 4 && (k < i || 0 < k) ==> d[k] < 0x1_0000
      invariant WorthModulo(d, carry, i, y)
    {
      ghost var c := carry;
      NoOverflow(digits[i], carry);
      digits[i] := Add64(digits[i], carry);
      if digits[i] >= 65536 {
        carry := ShiftDigit(digits[i]);
        digits[i] := MaskDigit(digits[i]);
        CarryStep(d, digits[..], i, c, carry, y);
        d := digits[..];
      } else {
        CarryStep(d, digits[..], i, c, 0, y);
        d := digits[..];
        carry := 0;
        i := i + 1;
        break;
      }
      i := i + 1;
    }
    FinalValue(d, carry, i, y);
  }

  lemma FirstAddition(before: seq<word_t>, after: seq<word_t>, n: word_t)
    requires Counter(before) && after == before[0 := Add64(before[0], n)]
    ensures WorthModulo(after, 0, 0, DigitsValue(before) + n)
  {
  }

  lemma NoOverflow(x: word_t, c: word_t)
    requires x < 0x1_0000 || c == 0
    requires c < 0x1_0000_0000_0000
    ensures Add64(x, c) == x + c
    ensures (x + c) / 0x1_0000 < 0x1_0000_0000_0000
  {
  }

  /** Moving the overflow of digit i into the carry does not change what digits and carry are worth. */
  lemma CarryStep(before: seq<word_t>, after: seq<word_t>, i: nat, c: word_t, c': word_t, y: int)
    requires |before| == 4 && |after| == 4 && i < 4
    requires after == before[i := after[i]] && after[i] + 0x1_0000 * c' == before[i] + c
    requires WorthModulo(before, c, i, y)
    ensures WorthModulo(after, c', i + 1, y)
  {
  }

  /** A carry out of the last digit is a multiple of 2^64. */
  lemma FinalValue(d: seq<word_t>, c: word_t, i: nat, y: int)
    requires Counter(d) && i <= 4 && (i == 4 || c == 0)
    requires WorthModulo(d, c, i, y)
    ensures DigitsValue(d) == y % 0x1_0000_0000_0000_0000
  {
    CounterBound(d);
    var m, v := 0x1_0000_0000_0000_0000, DigitsValue(d);
    hide DigitsValue;
    var z := (v + CarryValue(c, i) - y) / m;
    DivModUnique(y, m, if i == 4 then c - z else -z, v);
  }

  /** `x >> 16`. */
  function ShiftDigit(x: word_t): (r: word_t)
    ensures r == x / 0x1_0000
  {
    ShrIs(x, 16);
    Pow2Values();
    Shr(x, 16)
  }

  /** `x & 65535u`. */
  function MaskDigit(x: word_t): (r: word_t)
    ensures r == x % 0x1_0000
  {
    Pow2Values();
    MaskIsMod(x, 16);
    And64(x, 65535)
  }

  lemma {:induction false} ShrIs(x: nat, n: nat)
    ensures Shr(x, n) == x / Pow2(n)
  {
    if n != 0 {
      ShrIs(x / 2, n - 1);
      DivDiv(x, Pow2(n - 1));
    }
  }

  lemma DivDiv(x: nat, p: nat)
    requires p > 0
    ensures x / 2 / p == x / (2 * p)
  {
    var q, r := x / (2 * p), x % (2 * p);
    assert x == 2 * p * q + r;
    assert 2 * p * q == 2 * (p * q);
    DivModUnique(x / 2, p, q, r / 2);
  }

  lemma CounterBound(d: seq<word_t>)
    requires Counter(d)
    ensures DigitsValue(d) < 0x1_0000_0000_0000_0000
  {
  }

  /** Multiplies the counter by eight: three places to the left, digit by digit. */
  method BitLengthDigits(digits: array<word_t>) returns (bits: array<word_t>)
    requires digits.Length == 4 && Counter(digits[..])
    ensures fresh(bits) && bits.Length == 4 && Counter(bits[..])
    ensures DigitsValue(bits[..]) == 8 * DigitsValue(digits[..]) % 0x1_0000_0000_0000_0000
  {
    hide DigitsValue, Shl64, Or64, Shr, MaskDigit, BitDigit, Counter;
    ghost var d := digits[..];
    bits := new word_t[4](i requires 0 <= i < 4 reads digits => digits[i]);
    var carry: word_t := 0;
    for i := 0 to 4
      invariant forall k :: 0 <= k < i ==> bits[k] == BitDigit(d, k)
      invariant forall k :: i <= k < 4 ==> bits[k] == d[k]
      invariant carry == (if i == 0 then 0 else d[i - 1] / 0x2000)
    {
      var before := bits[i];
      DigitStep(d, i, carry);
      bits[i] := Shl64(bits[i], 3);
      bits[i] := Or64(bits[i], carry);
      bits[i] := MaskDigit(bits[i]);
      carry := MaskDigit(Shr(before, 16 - 3));
    }
    BitDigitsValue(d, bits[..]);
  }

  /** Writes the bit length, eight times the counter modulo 2^64, as 8 big-endian bytes from `begin` on. */
  method WriteDataBitLength(digits: array<word_t>, out: array<byte>, begin: nat)
    requires digits.Length == 4 && Counter(digits[..])
    requires begin + 8 <= out.Length
    modifies out
    ensures out[..begin] == old(out[..begin]) && out[begin + 8..] == old(out[begin + 8..])
    ensures out[begin..begin + 8] == BigEndian(8 * old(DigitsValue(digits[..])) % 0x1_0000_0000_0000_0000, 8)
  {
    hide DigitsValue, Counter, Shr, BigEndian;
    var bits := BitLengthDigits(digits);
    ghost var b := bits[..];
    var p := begin;
    for i := 4 downto 0
      invariant p == begin + 2 * (4 - i)
      invariant bits[..] == b
      invariant out[..begin] == old(out[..begin]) && out[begin + 8..] == old(out[begin + 8..])
      invariant out[begin..p] == Pairs(b, i)
    {
      assert bits[i] == b[i];
      HighByte(b, i);
      ghost var written := out[begin..p];
      out[p] := Shr(bits[i], 8) % 256;
      out[p + 1] := bits[i] % 256;
      assert out[begin..p + 2] == written + [b[i] / 256, b[i] % 256];
      p := p + 2;
    }
    DigitBytes(b);
    PairsInOrder(b);
  }

  /** The digits from place i on as pairs of bytes, most significant first. */
  function Pairs(d: seq<word_t>, i: nat): (s: seq<byte>)
    requires Counter(d) && i <= 4
    ensures |s| == 2 * (4 - i)
    decreases 4 - i
  {
    if i == 4 then [] else Pairs(d, i + 1) + [d[i] / 256, d[i] % 256]
  }

  /** Digit k of eight times the counter. */
  function BitDigit(d: seq<word_t>, k: nat): word_t
    requires Counter(d) && k < 4
  {
    (8 * d[k] + if k == 0 then 0 else d[k - 1] / 0x2000) % 0x1_0000
  }

  lemma ShiftedDigit(x: word_t, carry: word_t)
    requires x < 0x1_0000 && carry < 8
    ensures Or64(Shl64(x, 3), carry) == 8 * x + carry
    ensures Shr(x, 13) == x / 0x2000
  {
    hide Bitwise, Shl, Shr, Pow2;
    Pow2Values();
    ShlIsProduct(x, 3);
    OrDisjoint(x, carry, 3);
    ShrIs(x, 13);
  }

  lemma DigitStep(d: seq<word_t>, k: nat, carry: word_t)
    requires Counter(d) && k < 4
    requires carry == if k == 0 then 0 else d[k - 1] / 0x2000
    ensures MaskDigit(Or64(Shl64(d[k], 3), carry)) == BitDigit(d, k)
    ensures MaskDigit(Shr(d[k], 13)) == d[k] / 0x2000
  {
    hide Shl64, Or64, Shr, MaskDigit, Bitwise;
    ShiftedDigit(d[k], carry);
  }

  lemma BitDigitIs(d: seq<word_t>, k: nat)
    requires Counter(d) && k < 4
    ensures BitDigit(d, k) == 8 * d[k] + (if k == 0 then 0 else d[k - 1] / 0x2000) - 0x1_0000 * (d[k] / 0x2000)
  {
    var carry := if k == 0 then 0 else d[k - 1] / 0x2000;
    DivModUnique(8 * d[k] + carry, 0x1_0000, d[k] / 0x2000, 8 * (d[k] % 0x2000) + carry);
  }

  lemma BitDigitsValue(d: seq<word_t>, e: seq<word_t>)
    requires Counter(d) && |e| == 4 && forall k :: 0 <= k < 4 ==> e[k] == BitDigit(d, k)
    ensures Counter(e) && DigitsValue(e) == 8 * DigitsValue(d) % 0x1_0000_0000_0000_0000
  {
    hide BitDigit;
    var q := d[3] / 0x2000;
    BitDigitIs(d, 0);
    BitDigitIs(d, 1);
    BitDigitIs(d, 2);
    BitDigitIs(d, 3);
    CounterBound(e);
    DivModUnique(8 * DigitsValue(d), 0x1_0000_0000_0000_0000, q, DigitsValue(e));
  }

  lemma HighByte(d: seq<word_t>, i: nat)
    requires Counter(d) && i < 4
    ensures Shr(d[i], 8) % 256 == d[i] / 256
  {
    ShrIs(d[i], 8);
    Pow2Values();
  }

  lemma PairsInOrder(d: seq<word_t>)
    requires Counter(d)
    ensures Pairs(d, 0)
         == [d[3] / 256, d[3] % 256, d[2] / 256, d[2] % 256, d[1] / 256, d[1] % 256, d[0] / 256, d[0] % 256]
  {
    assert Pairs(d, 3) == [d[3] / 256, d[3] % 256];
    assert Pairs(d, 2) == [d[3] / 256, d[3] % 256, d[2] / 256, d[2] % 256];
    assert Pairs(d, 1) == [d[3] / 256, d[3] % 256, d[2] / 256, d[2] % 256, d[1] / 256, d[1] % 256];
  }

  lemma DigitBytes(e: seq<word_t>)
    requires Counter(e)
    ensures BigEndian(DigitsValue(e), 8)
         == [e[3] / 256, e[3] % 256, e[2] / 256, e[2] % 256, e[1] / 256, e[1] % 256, e[0] / 256, e[0] % 256]
  {
    BigEndianPair(0, e[3]);
    BigEndianPair(e[3], e[2]);
    BigEndianPair(e[3] * 0x1_0000 + e[2], e[1]);
    BigEndianPair(e[3] * 0x1_0000_0000 + e[2] * 0x1_0000 + e[1], e[0]);
    assert BigEndian(e[3], 2) == [e[3] / 256, e[3] % 256];
    BigEndianStep(e[3], e[2], 2);
    BigEndianStep(e[3] * 0x1_0000 + e[2], e[1], 4);
    BigEndianStep(e[3] * 0x1_0000_0000 + e[2] * 0x1_0000 + e[1], e[0], 6);
  }

  lemma BigEndianPair(high: nat, low: nat)
    requires low < 0x1_0000
    ensures (high * 0x1_0000 + low) / 0x1_0000 == high
  {
  }

  lemma BigEndianStep(high: nat, low: nat, k: nat)
    requires low < 0x1_0000
    ensures BigEndian(high * 0x1_0000 + low, k + 2) == BigEndian(high, k) + [low / 256, low % 256]
  {
    var x := high * 0x1_0000 + low;
    assert x / 256 == high * 256 + low / 256 && x % 256 == low % 256;
    assert (x / 256) / 256 == high && (x / 256) % 256 == low / 256;
    assert BigEndian(x, k + 2) == BigEndian(x / 256, k + 1) + [x % 256];
    assert BigEndian(x / 256, k + 1) == BigEndian(high, k) + [low / 256];
  }
}

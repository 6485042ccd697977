/** Base64 with a 32-bit accumulator: `b_base64_encode` and `b_base64_decode`. */
module Base64Accumulator {
  import opened Bytes
  import opened Bits
  import opened Base64Spec

  /** `x >> n` of a signed `int`: the shift rounds towards minus infinity. */
  function Asr(x: int, n: nat): int { x / Pow2(n) }

  /**
   * The accumulator only has to know the last two bytes: bits above them may have been lost to
   * wrap-around without changing the sextet that is cut out `valb` places from the right.
   */
  lemma SextetFromAccumulator(s: seq<byte>, n: nat, k: nat, valb: nat, val: int)
    requires n <= |s| && 6 * k + 6 + valb == 8 * (n + 1) && valb <= 6
    requires val % 0x1_0000 == (if n == 0 then 0 else s[n - 1]) * 256 + ByteAt(s, n)
    ensures Asr(val, valb) % 64 == Sextet(s, k)
  {
    hide Sextet, Pow2;
    SmallPowers();
    var g, a, b, c := n / 3, ByteAt(s, n / 3 * 3), ByteAt(s, n / 3 * 3 + 1), ByteAt(s, n / 3 * 3 + 2);
    SextetGroup(s, g);
    if n % 3 == 0 {
      assert valb == 2 && k == 4 * g;
      LowBits(val, if n == 0 then 0 else s[n - 1], a);
    } else if n % 3 == 1 {
      assert valb == 4 && k == 4 * g + 1;
      LowBits(val, a, b);
    } else {
      assert (valb == 6 && k == 4 * g + 2) || (valb == 0 && k == 4 * g + 3);
      LowBits(val, b, c);
    }
  }

  lemma LowBits(val: int, prev: byte, cur: byte)
    requires val % 0x1_0000 == prev * 256 + cur
    ensures val % 64 == cur % 64
    ensures val / 4 % 64 == cur / 4
    ensures val / 16 % 64 == prev % 4 * 16 + cur / 16
    ensures val / 64 % 64 == prev % 16 * 4 + cur / 64
  {
    var q := val / 0x1_0000;
    assert val == 0x1_0000 * q + prev * 256 + cur;
    Chunk(val, 64, 1, 1024 * q + 4 * (prev as int), cur);
    CutAt(val, 64, 4, 256 * q + prev, cur, cur / 4);
    Tops(prev as int % 4, cur);
    CutAt(val, 64, 16, 64 * q + prev / 4, prev as int % 4 * 256 + cur, prev as int % 4 * 16 + cur / 16);
    Tops(prev as int % 16, cur);
    CutAt(val, 64, 64, 16 * q + prev / 16, prev as int % 16 * 256 + cur, prev as int % 16 * 4 + cur / 64);
  }

  /** A cut that is below m already is what is left modulo m. */
  lemma CutAt(val: int, m: int, p: int, high: int, low: int, cut: int)
    requires m > 0 && p > 0 && val == m * p * high + low && 0 <= low
    requires low / p == cut && 0 <= cut < m
    ensures val / p % m == cut
  {
    Chunk(val, m, p, high, low);
    DivModUnique(cut, m, 0, cut);
  }

  /** Cutting places out of a number only looks at the part below the next higher place. */
  lemma Chunk(val: int, m: int, p: int, high: int, low: int)
    requires m > 0 && p > 0
    requires val == m * p * high + low && 0 <= low
    ensures val / p % m == low / p % m
  {
    assert m * p * high == p * (m * high);
    DivShift(val, p, m * high, low);
    ModShift(low / p, m, high);
  }

  lemma DivShift(val: int, p: int, h: int, low: int)
    requires p > 0 && val == p * h + low && 0 <= low
    ensures val / p == h + low / p
  {
    assert p * (h + low / p) == p * h + p * (low / p);
    DivModUnique(val, p, h + low / p, low % p);
  }

  lemma Tops(a: nat, cur: byte)
    requires a < 16
    ensures (a * 256 + cur) / 16 == a * 16 + cur / 16 && (a * 256 + cur) / 64 == a * 4 + cur / 64
  {
    DivModUnique(a * 256 + cur, 16, a * 16 + cur / 16, cur % 16);
    DivModUnique(a * 256 + cur, 64, a * 4 + cur / 64, cur % 64);
  }

  /** Wrap-around does not reach the low 16 bits. */
  lemma WrapKeepsLow(x: int)
    ensures Wrap32(x) % 0x1_0000 == x % 0x1_0000
  {
    var q := x / 0x1_0000_0000 + if x % 0x1_0000_0000 < 0x8000_0000 then 0 else 1;
    assert Wrap32(x) == x - 0x1_0000_0000 * q;
    DivModUnique(Wrap32(x), 0x1_0000, x / 0x1_0000 - 0x1_0000 * q, x % 0x1_0000);
  }

  /** Shifting a byte in keeps it and its predecessor exact. */
  lemma ShiftIn(val: int, prev: byte, c: byte)
    requires val % 256 == prev
    ensures Wrap32(Wrap32(val * 256) + c) % 0x1_0000 == prev * 256 + c
    ensures Wrap32(Wrap32(val * 256) + c) % 256 == c
  {
    hide Wrap32;
    WrapKeepsLow(val * 256);
    WrapKeepsLow(Wrap32(val * 256) + c);
    DivModUnique(val * 256, 0x1_0000, val / 256, prev * 256);
    LowSum(Wrap32(val * 256), prev * 256, c);
    LowByte(Wrap32(Wrap32(val * 256) + c), prev, c);
  }

  lemma LowSum(x: int, low: int, c: int)
    requires x % 0x1_0000 == low && 0 <= c && low + c < 0x1_0000
    ensures (x + c) % 0x1_0000 == low + c
  {
  }

  lemma LowByte(x: int, high: int, c: int)
    requires x % 0x1_0000 == high * 256 + c && 0 <= c < 256
    ensures x % 256 == c
  {
    DivModUnique(x, 256, x / 0x1_0000 * 256 + high, c);
  }

  method BEncode(input: seq<byte>) returns (out: Str)
    ensures out == Encode(input)
  {
    hide Sextet, Wrap32, Pow2, Asr, Alphabet, Encode, Characters, Sextets, SextetCount;
    var val, valb := 0, -6;
    out := [];
    for n := 0 to |input|
      invariant val % 256 == if n == 0 then 0 else input[n - 1]
      invariant -6 <= valb < 0 && valb == 8 * n - 6 * |out| - 6
      invariant forall i :: 0 <= i < |out| ==> out[i] == Alphabet(Sextet(input, i))
    {
      ghost var prev: byte := if n == 0 then 0 else input[n - 1];
      ShiftIn(val, prev, input[n]);
      val := Wrap32(Wrap32(val * 256) + input[n]);
      valb := valb + 8;
      while valb >= 0
        invariant -6 <= valb <= 6 && valb == 8 * (n + 1) - 6 * |out| - 6
        invariant forall i :: 0 <= i < |out| ==> out[i] == Alphabet(Sextet(input, i))
      {
        SextetFromAccumulator(input, n, |out|, valb, val);
        out := out + [Alphabet(Asr(val, valb) % 64)];
        valb := valb - 6;
      }
    }
    if valb > -6 {
      ghost var prev: byte := if input == [] then 0 else input[|input| - 1];
      ShiftIn(val, prev, 0);
      WrapTwice(val * 256);
      SextetFromAccumulator(input, |input|, |out|, valb + 8, Wrap32(val * 256));
      out := out + [Alphabet(Asr(Wrap32(val * 256), valb + 8) % 64)];
    }
    CharactersAt(input, out);
    out := PadToFour(out, input);
  }

  /** As many characters as cover the bits, each in its place, are those of the encoding. */
  lemma CharactersAt(s: seq<byte>, t: Str)
    requires 8 * |s| <= 6 * |t| < 8 * |s| + 6
    requires forall i :: 0 <= i < |t| ==> t[i] == Alphabet(Sextet(s, i))
    ensures t == Characters(Sextets(s))
  {
    hide Sextet, Alphabet;
    DivModUnique(8 * |s| + 5, 6, |t|, 8 * |s| + 5 - 6 * |t|);
  }

  /** The closing loop of the encoder: pads until the length is a multiple of four. */
  method PadToFour(text: Str, ghost input: seq<byte>) returns (out: Str)
    requires text == Characters(Sextets(input))
    ensures out == Encode(input)
  {
    hide Characters, Sextets, SextetCount, PadCount;
    Counts(|input|);
    out := text;
    ghost var k := 0;
    while |out| % 4 != 0
      invariant 0 <= k <= PadCount(|input|)
      invariant out == text + Pads(k)
      decreases PadCount(|input|) - k
    {
      PadPlaces(|input|, k);
      out := out + [PAD];
      k := k + 1;
    }
    PadPlaces(|input|, k);
  }

  /** A multiple of four is reached after exactly the pads that the encoding has. */
  lemma PadPlaces(n: nat, k: nat)
    requires k <= PadCount(n)
    ensures (SextetCount(n) + k) % 4 == 0 <==> k == PadCount(n)
  {
    hide SextetCount, PadCount;
    Counts(n);
    var g, r := n / 3, SextetCount(n) - 4 * (n / 3) + k;
    if k == PadCount(n) {
      DivModUnique(4 * g + r, 4, if n % 3 == 0 then g else g + 1, 0);
    } else {
      DivModUnique(4 * g + r, 4, g, r);
    }
  }

  lemma WrapTwice(x: int)
    ensures Wrap32(Wrap32(x) + 0) == Wrap32(x)
  {
  }

  /** The table `T`: the place of each character in the alphabet, -1 elsewhere. */
  method BuildIndexTable() returns (t: array<int>)
    ensures fresh(t) && t.Length == 256
    ensures forall c: byte :: t[c] == IndexOf(c)
  {
    t := new int[256](_ => -1);
    for i := 0 to 64
      invariant forall c: byte :: t[c] == if 0 <= IndexOf(c) < i then IndexOf(c) else -1
    {
      IndexOfAlphabet(i);
      t[Alphabet(i)] := i;
    }
  }

  /** The octet that the last two sextets complete, `valb` places from the right of the accumulator. */
  lemma OctetFromAccumulator(q: seq<sextet>, n: nat, k: nat, valb: nat, val: int)
    requires n < |q| && 8 * k + 8 + valb == 6 * (n + 1) && valb < 6
    requires val % 4096 == (if n == 0 then 0 else q[n - 1] as int) * 64 + q[n]
    ensures Asr(val, valb) % 256 == Octet(q, k)
  {
    hide Octet, Pow2;
    SmallPowers();
    var g := n / 4;
    OctetGroup(q, g);
    LowOctet(val, q[n - 1], q[n]);
    assert (n == 4 * g + 1 && valb == 4 && k == 3 * g) || (n == 4 * g + 2 && valb == 2 && k == 3 * g + 1)
        || (n == 4 * g + 3 && valb == 0 && k == 3 * g + 2);
  }

  lemma LowOctet(val: int, prev: sextet, cur: sextet)
    requires val % 4096 == prev * 64 + cur
    ensures val % 256 == prev % 4 * 64 + cur
    ensures val / 4 % 256 == prev % 16 * 16 + cur / 4
    ensures val / 16 % 256 == prev * 4 + cur / 16
  {
    var r, p, c := val / 4096, prev as int, cur as int;
    assert val == 4096 * r + p * 64 + c;
    CutAt(val, 256, 1, 16 * r + p / 4, p % 4 * 64 + c, p % 4 * 64 + c);
    DivModUnique(p % 16 * 64 + c, 4, p % 16 * 16 + c / 4, c % 4);
    CutAt(val, 256, 4, 4 * r + p / 16, p % 16 * 64 + c, p % 16 * 16 + c / 4);
    DivModUnique(p * 64 + c, 16, p * 4 + c / 16, c % 16);
    CutAt(val, 256, 16, r, p * 64 + c, p * 4 + c / 16);
  }

  lemma ShiftInSextet(val: int, prev: sextet, c: sextet)
    requires val % 64 == prev
    ensures Wrap32(Wrap32(val * 64) + c) % 4096 == prev * 64 + c
    ensures Wrap32(Wrap32(val * 64) + c) % 64 == c
  {
    hide Wrap32;
    WrapKeepsLow(val * 64);
    WrapKeepsLow(Wrap32(val * 64) + c);
    var x := Wrap32(Wrap32(val * 64) + c);
    Low12(Wrap32(val * 64), val * 64);
    Low12(x, Wrap32(val * 64) + c);
    DivModUnique(val * 64, 4096, val / 64, (prev as int) * 64);
    DivModUnique(Wrap32(val * 64) + c, 4096, Wrap32(val * 64) / 4096, (prev as int) * 64 + c);
    DivModUnique(x, 64, x / 4096 * 64 + prev, c);
  }

  lemma Low12(x: int, y: int)
    requires x % 0x1_0000 == y % 0x1_0000
    ensures x % 4096 == y % 4096
  {
    DivModUnique(x, 4096, x / 0x1_0000 * 16 + x % 0x1_0000 / 4096, x % 0x1_0000 % 4096);
    DivModUnique(y, 4096, y / 0x1_0000 * 16 + y % 0x1_0000 / 4096, y % 0x1_0000 % 4096);
  }

  method BDecode(input: Str) returns (out: seq<byte>)
    ensures out == Decode(input)
  {
    hide Octet, Octets, Decode, Wrap32, Pow2, Asr, Alphabet, IndexOf;
    var t := BuildIndexTable();
    ghost var p := PrefixLength(input);
    ghost var q := Indices(input[..p]);
    var val, valb := 0, -8;
    out := [];
    var n := 0;
    while n < |input|
      invariant 0 <= n <= p
      invariant val % 64 == if n == 0 then 0 else q[n - 1]
      invariant -8 <= valb < 0 && valb == 6 * n - 8 * |out| - 8
      invariant forall i :: 0 <= i < |out| ==> out[i] == Octet(q, i)
      invariant forall c: byte :: t[c] == IndexOf(c)
    {
      if t[input[n]] == -1 {
        break;
      }
      ghost var prev: sextet := if n == 0 then 0 else q[n - 1];
      assert n < p && t[input[n]] == q[n];
      ShiftInSextet(val, prev, q[n]);
      val := Wrap32(Wrap32(val * 64) + t[input[n]]);
      valb := valb + 6;
      if valb >= 0 {
        OctetFromAccumulator(q, n, |out|, valb, val);
        out := out + [Asr(val, valb) % 256];
        valb := valb - 8;
      }
      n := n + 1;
    }
    assert n == p;
    DecodedAt(input, out);
  }
}

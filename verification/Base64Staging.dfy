/** Base64 through staging arrays of three and four bytes: `base64_encode` and `base64_decode`. */
module Base64Staging {
  import opened Bytes
  import opened Base64Spec

  /** Turns the three staged bytes into four table indices. */
  method SplitStaged(three: array<byte>, four: array<byte>)
    requires three.Length == 3 && four.Length == 4 && three != four
    modifies four
    ensures (four[0] as int, four[1] as int, four[2] as int, four[3] as int) == Split(three[0], three[1], three[2])
  {
    // (x & 0xfc) >> 2, (x & 0xf0) >> 4 and (x & 0xc0) >> 6 drop the low bits, as the divisions do.
    four[0] := three[0] / 4;
    four[1] := three[0] % 4 * 16 + three[1] / 16;
    four[2] := three[1] % 16 * 4 + three[2] / 64;
    four[3] := three[2] % 64;
  }

  method StagingEncode(bytes: seq<byte>) returns (ret: Str)
    ensures ret == Encode(bytes)
  {
    hide Sextet, Alphabet, Split, Encode, SextetCount, PadCount;
    Counts(|bytes|);
    ret := [];
    var i := 0;
    var three, four := new byte[3], new byte[4];
    ghost var g := 0;
    for n := 0 to |bytes|
      invariant 0 <= i < 3 && n == 3 * g + i
      invariant forall k :: 0 <= k < i ==> three[k] == bytes[3 * g + k]
      invariant |ret| == 4 * g
      invariant forall k :: 0 <= k < |ret| ==> ret[k] == Alphabet(Sextet(bytes, k))
    {
      three[i] := bytes[n];
      i := i + 1;
      if i == 3 {
        SplitStaged(three, four);
        SextetGroup(bytes, g);
        i := 0;
        while i < 4
          invariant 0 <= i <= 4 && |ret| == 4 * g + i
          invariant forall k :: 0 <= k < |ret| ==> ret[k] == Alphabet(Sextet(bytes, k))
        {
          ret := ret + [Alphabet(four[i])];
          i := i + 1;
        }
        i := 0;
        g := g + 1;
      }
    }
    if i != 0 {
      for j := i to 3
        invariant forall k :: 0 <= k < i ==> three[k] == bytes[3 * g + k]
        invariant forall k :: i <= k < j ==> three[k] == 0
      {
        three[j] := 0;
      }
      SplitStaged(three, four);
      SextetGroup(bytes, g);
      for j := 0 to i + 1
        invariant |ret| == 4 * g + j
        invariant forall k :: 0 <= k < |ret| ==> ret[k] == Alphabet(Sextet(bytes, k))
      {
        ret := ret + [Alphabet(four[j])];
      }
      ghost var characters := |ret|;
      while i < 3
        invariant i <= 3 && |ret| + 3 - i == SextetCount(|bytes|) + PadCount(|bytes|)
        invariant forall k :: 0 <= k < characters ==> ret[k] == Alphabet(Sextet(bytes, k))
        invariant forall k :: characters <= k < |ret| ==> ret[k] == PAD
      {
        ret := ret + [PAD];
        i := i + 1;
      }
    }
    EncodingAt(bytes, ret);
  }

  /** `isalnum(c) || c == '+' || c == '/'` in the C locale. */
  predicate IsBase64(c: byte) {
    48 <= c <= 57 || 65 <= c <= 90 || 97 <= c <= 122 || c == 43 || c == 47
  }

  lemma IsBase64IsInAlphabet(c: byte)
    ensures IsBase64(c) <==> IndexOf(c) >= 0
  {
  }

  /** `base64_chars.find(c)` cut down to an `unsigned char`: `npos` becomes 255. */
  function FindByte(c: byte): byte {
    if IndexOf(c) >= 0 then IndexOf(c) else 255
  }

  /**
   * Turns the four staged indices into three bytes; each sum keeps its low eight bits. An index that
   * is out of range, as `find` reports for a place without a character, only spoils the bytes made
   * from that place.
   */
  method JoinStaged(four: array<byte>, three: array<byte>)
    requires three.Length == 3 && four.Length == 4 && three != four
    modifies three
    ensures var (x, y, z) := Join(four[0], four[1], four[2], four[3]);
            && (four[0] < 64 && four[1] < 64 ==> three[0] == x)
            && (four[1] < 64 && four[2] < 64 ==> three[1] == y)
            && (four[2] < 64 && four[3] < 64 ==> three[2] == z)
  {
    // (x & 0x30) >> 4 and (x & 0x3c) >> 2 are x % 64 / 16 and x % 64 / 4.
    JoinInRange(four[0], four[1], four[2], four[3]);
    three[0] := (four[0] as int * 4 + four[1] % 64 / 16) % 256;
    three[1] := (four[1] as int % 16 * 16 + four[2] % 64 / 4) % 256;
    three[2] := (four[2] as int % 4 * 64 + four[3]) % 256;
  }

  /** Masking and truncation do nothing to indices that are in range. */
  lemma JoinInRange(a: byte, b: byte, c: byte, d: byte)
    ensures a < 64 && b < 64 ==> (a as int * 4 + b % 64 / 16) % 256 == a as int * 4 + b / 16
    ensures b < 64 && c < 64 ==> (b as int % 16 * 16 + c % 64 / 4) % 256 == b as int % 16 * 16 + c / 4
    ensures c < 64 && d < 64 ==> (c as int % 4 * 64 + d) % 256 == c as int % 4 * 64 + d
  {
    if a < 64 && b < 64 { Small(b); Fits(a as int * 4 + b / 16); }
    if b < 64 && c < 64 { Small(c); Fits(b as int % 16 * 16 + c / 4); }
    if c < 64 && d < 64 { Fits(c as int % 4 * 64 + d); }
  }

  lemma Small(x: nat)
    requires x < 64
    ensures x % 64 == x
  {
  }

  lemma Fits(x: nat)
    requires x < 256
    ensures x % 256 == x
  {
  }

  /** Replaces each staged character by its index. */
  method FindAll(four: array<byte>)
    requires four.Length == 4
    modifies four
    ensures forall k :: 0 <= k < 4 ==> four[k] == FindByte(old(four[k]))
  {
    for i := 0 to 4
      invariant forall k :: 0 <= k < 4 ==> four[k] == if k < i then FindByte(old(four[k])) else old(four[k])
    {
      four[i] := FindByte(four[i]);
    }
  }

  /** The indices of staged characters are the sextets of their group. */
  lemma StagedIndices(t: Str, g: nat, staged: seq<byte>)
    requires forall i :: 0 <= i < |t| ==> IndexOf(t[i]) >= 0
    requires 4 * g + |staged| <= |t| && forall k :: 0 <= k < |staged| ==> staged[k] == t[4 * g + k]
    ensures forall k :: 0 <= k < |staged| ==> FindByte(staged[k]) == Indices(t)[4 * g + k]
  {
    hide IndexOf;
  }

  method StagingDecode(encoded: Str) returns (ret: seq<byte>)
    ensures ret == Decode(encoded)
  {
    hide Octet, Octets, Decode, Join, IndexOf, IsBase64, Indices, FindByte, PrefixLength;
    ghost var p := PrefixLength(encoded);
    ghost var q := Indices(encoded[..p]);
    var i, n := 0, 0;
    var four := new byte[4];
    ret := [];
    ghost var g := 0;
    while n < |encoded| && encoded[n] != PAD && IsBase64(encoded[n])
      invariant 0 <= n <= p && 0 <= i < 4 && n == 4 * g + i
      invariant forall k :: 0 <= k < i ==> four[k] == encoded[4 * g + k]
      invariant |ret| == 3 * g && forall k :: 0 <= k < |ret| ==> ret[k] == Octet(q, k)
    {
      IsBase64IsInAlphabet(encoded[n]);
      four[i] := encoded[n];
      i := i + 1;
      n := n + 1;
      if i == 4 {
        StagedIndices(encoded[..p], g, four[..]);
        ret := DecodeGroup(q, g, four, ret);
        i := 0;
        g := g + 1;
      }
    }
    if n < |encoded| {
      PadIsOutside();
      IsBase64IsInAlphabet(encoded[n]);
    }
    assert n == p;
    if i != 0 {
      StagedIndices(encoded[..p], g, four[..i]);
      ret := DecodeTail(q, g, i, four, ret);
    }
    DecodedAt(encoded, ret);
  }

  /** Four characters: three bytes. */
  method DecodeGroup(ghost q: seq<sextet>, ghost g: nat, four: array<byte>, ret0: seq<byte>) returns (ret: seq<byte>)
    requires four.Length == 4 && 4 * g + 4 <= |q|
    requires forall k :: 0 <= k < 4 ==> FindByte(four[k]) == q[4 * g + k]
    requires |ret0| == 3 * g && forall k :: 0 <= k < |ret0| ==> ret0[k] == Octet(q, k)
    modifies four
    ensures |ret| == 3 * g + 3 && forall k :: 0 <= k < |ret| ==> ret[k] == Octet(q, k)
  {
    hide Octet, Join, FindByte;
    var three := new byte[3];
    FindAll(four);
    JoinStaged(four, three);
    OctetGroup(q, g);
    ret := ret0;
    for i := 0 to 3
      invariant |ret| == 3 * g + i && forall k :: 0 <= k < |ret| ==> ret[k] == Octet(q, k)
    {
      ret := ret + [three[i]];
    }
  }

  /** The last one, two or three characters: one byte fewer than characters. */
  method DecodeTail(ghost q: seq<sextet>, ghost g: nat, i: nat, four: array<byte>, ret0: seq<byte>)
    returns (ret: seq<byte>)
    requires four.Length == 4 && 1 <= i < 4 && |q| == 4 * g + i
    requires forall k :: 0 <= k < i ==> FindByte(four[k]) == q[4 * g + k]
    requires |ret0| == 3 * g && forall k :: 0 <= k < |ret0| ==> ret0[k] == Octet(q, k)
    modifies four
    ensures |ret| == 3 * g + i - 1 && forall k :: 0 <= k < |ret| ==> ret[k] == Octet(q, k)
  {
    hide Octet, Join, FindByte;
    ghost var staged := four[..];
    var three := new byte[3];
    for j := i to 4
      invariant forall k :: 0 <= k < i ==> four[k] == staged[k]
    {
      four[j] := 0;
    }
    FindAll(four);
    JoinStaged(four, three);
    OctetGroup(q, g);
    JoinPrefix(q, g, i, four[0], four[1], four[2], four[3]);
    ret := ret0;
    for j := 0 to i - 1
      invariant |ret| == 3 * g + j && forall k :: 0 <= k < |ret| ==> ret[k] == Octet(q, k)
    {
      ret := ret + [three[j]];
    }
  }

  /** The bytes that are kept do not depend on the places without a character. */
  lemma JoinPrefix(q: seq<sextet>, g: nat, i: nat, a: int, b: int, c: int, d: int)
    requires 1 <= i < 4 && |q| == 4 * g + i
    requires a == q[4 * g] && (i > 1 ==> b == q[4 * g + 1]) && (i > 2 ==> c == q[4 * g + 2])
    ensures var (x, y, z) := Join(a, b, c, d);
            && (i > 1 ==> x == Octet(q, 3 * g)) && (i > 2 ==> y == Octet(q, 3 * g + 1))
  {
    hide Octet;
    OctetGroup(q, g);
  }
}

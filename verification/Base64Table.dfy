/** Base64 by table: `h_base64_encode` and the tolerant `h_base64_decode`. */
module Base64Table {
  import opened Bytes
  import opened Bits
  import opened Base64Spec

  /** The allocation of the encoder for `length` bytes, terminator included. */
  function EncodedCapacity(length: nat): (capacity: nat)
    ensures capacity == 4 * (length / 3) + 5
  {
    DivModUnique((length + 3 - length % 3) * 4, 3, 4 * (length / 3) + 4, 0);
    (length + 3 - length % 3) * 4 / 3 + 1
  }

  lemma RoomForGroup(length: nat, current: nat, i: nat)
    requires current + 3 <= length && 3 * i == 4 * current
    ensures i + 4 < EncodedCapacity(length)
  {
  }

  lemma RoomForTail(length: nat, current: nat, i: nat)
    requires current <= length <= current + 2 && current % 3 == 0 && 3 * i == 4 * current
    ensures i == 4 * (length / 3) && length % 3 == length - current && i + 4 < EncodedCapacity(length)
  {
  }

  method HEncode(str: seq<byte>) returns (result: array<byte>, retLength: nat)
    ensures fresh(result) && result.Length == EncodedCapacity(|str|)
    ensures retLength < result.Length && result[..retLength] == Encode(str) && result[retLength] == 0
  {
    hide Sextet, Alphabet, EncodedCapacity;
    result := new byte[EncodedCapacity(|str|)];
    var current, length, i := 0, |str|, 0;
    while length > 2
      invariant 0 <= length && current + length == |str|
      invariant 3 * i == 4 * current && current % 3 == 0 && i < result.Length
      invariant forall k :: 0 <= k < i ==> result[k] == Alphabet(Sextet(str, k))
    {
      GroupAt(str, current, i);
      RoomForGroup(|str|, current, i);
      result[i] := Alphabet(str[current] / 4);
      result[i + 1] := Alphabet(str[current] % 4 * 16 + str[current + 1] / 16);
      result[i + 2] := Alphabet(str[current + 1] % 16 * 4 + str[current + 2] / 64);
      result[i + 3] := Alphabet(str[current + 2] % 64);
      i := i + 4;
      current := current + 3;
      length := length - 3;
    }
    i := HEncodeTail(str, current, length, result, i);
    retLength := i;
    result[i] := 0;
  }

  /** The last one or two bytes, if any, with their pads. */
  method HEncodeTail(str: seq<byte>, current: nat, length: nat, result: array<byte>, start: nat) returns (i: nat)
    requires length <= 2 && current + length == |str|
    requires 3 * start == 4 * current && current % 3 == 0
    requires result.Length == EncodedCapacity(|str|)
    requires forall k :: 0 <= k < start ==> result[k] == Alphabet(Sextet(str, k))
    modifies result
    ensures i < result.Length && result[..i] == Encode(str)
  {
    hide Sextet, Alphabet, SextetCount, PadCount, Encode, EncodedCapacity;
    Counts(|str|);
    RoomForTail(|str|, current, start);
    i := start;
    if length != 0 {
      GroupAt(str, current, i);
      result[i] := Alphabet(str[current] / 4);
      i := i + 1;
      if length > 1 {
        result[i] := Alphabet(str[current] % 4 * 16 + str[current + 1] / 16);
        result[i + 1] := Alphabet(str[current + 1] % 16 * 4);
        result[i + 2] := PAD;
        i := i + 3;
      } else {
        result[i] := Alphabet(str[current] % 4 * 16);
        result[i + 1] := PAD;
        result[i + 2] := PAD;
        i := i + 3;
      }
    }
    EncodingAt(str, result[..i]);
  }

  /** The four sextets at i come from the three bytes at p. */
  lemma GroupAt(s: seq<byte>, p: nat, i: nat)
    requires p < |s| && p % 3 == 0 && 3 * i == 4 * p
    ensures Sextet(s, i) == s[p] / 4
    ensures Sextet(s, i + 1) == s[p] % 4 * 16 + ByteAt(s, p + 1) / 16
    ensures Sextet(s, i + 2) == ByteAt(s, p + 1) % 16 * 4 + ByteAt(s, p + 2) / 64
    ensures Sextet(s, i + 3) == ByteAt(s, p + 2) % 64
  {
    hide Sextet;
    SextetGroup(s, p / 3);
  }

  // ----- decoding -----

  /** `strchr` over the table and its terminator: the index of the first match, or -1. */
  method StrChr(c: byte) returns (r: int)
    ensures r == if c == 0 then 64 else IndexOf(c)
  {
    for i := 0 to 64
      invariant forall k: sextet :: k < i ==> Alphabet(k) != c
    {
      if Alphabet(i) == c {
        IndexOfAlphabet(i);
        return i;
      }
    }
    assert !InAlphabet(c);
    return if c == 0 then 64 else -1;
  }

  method BuildReverseTable() returns (table: array<int>)
    ensures fresh(table) && table.Length == 256
    ensures forall c: byte :: table[c] == if c == 0 then 64 else IndexOf(c)
  {
    hide IndexOf;
    table := new int[256];
    for ch := 0 to 256
      invariant forall c: byte :: c < ch ==> table[c] == if c == 0 then 64 else IndexOf(c)
    {
      var r := StrChr(ch);
      table[ch] := r;
    }
  }

  /** A space stands for a plus sign that was posted. */
  function Mend(c: byte): byte {
    if c == 32 then 43 else c
  }

  /** Spaces mended, characters outside the alphabet dropped. */
  function Cleaned(t: Str): (u: Str)
    ensures |u| <= |t|
    ensures forall i :: 0 <= i < |u| ==> IndexOf(u[i]) >= 0
  {
    if t == [] then []
    else
      var c := Mend(t[|t| - 1]);
      Cleaned(t[..|t| - 1]) + if IndexOf(c) >= 0 then [c] else []
  }

  /** The text before its first pad. */
  function BeforePad(t: Str): (u: Str)
    ensures u <= t && PAD !in u
    ensures |u| < |t| ==> t[|u|] == PAD
  {
    if t == [] || t[0] == PAD then [] else [t[0]] + BeforePad(t[1..])
  }

  /** The sextets that the decoder sees. */
  function Seen(t: Str): seq<sextet> {
    Indices(Cleaned(t))
  }

  /** What is known of the byte that the next `|=` will complete. */
  ghost predicate Pending(q: seq<sextet>, b: byte) {
    var i := |q|;
    && (i % 4 == 1 ==> b == 4 * (q[i - 1] as int))
    && (i % 4 == 2 ==> b == 16 * (q[i - 1] as int % 16))
    && (i % 4 == 3 ==> b == 64 * (q[i - 1] as int % 4))
  }

  /** The bits of the last of two sextets that do not fill a byte, as they stand in the next one. */
  function LeftOver(u: Str): byte
  {
    if u == [] then 0 else 16 * (IndexOf(u[|u| - 1]) % 16)
  }

  /**
   * Decodes the NUL-terminated text `str` into a buffer of `length + 1` bytes; null stands for the
   * result NULL. The terminator follows the data, except after two characters and a pad: there
   * the left-over bits come first.
   */
  method HDecode(str: Str, length: nat) returns (result: array?<byte>, retLength: nat)
    requires NulFree(str) && |str| <= length
    ensures var u := Cleaned(BeforePad(str));
            && (result == null <==> PAD in str && |u| % 4 <= 1)
            && (result != null ==>
                  && fresh(result) && result.Length == length + 1
                  && retLength <= length && result[..retLength] == Decode(u)
                  && result[retLength] == (if PAD in str && |u| % 4 == 2 then LeftOver(u) else 0)
                  && var end := retLength + if PAD in str then 4 - |u| % 4 else 0;
                     end <= length && result[end] == 0)
  {
    hide IndexOf, Octets, Octet, Pending, Cleaned, LeftOver, Decode, BeforePad, Indices, Seen;
    var reverse := BuildReverseTable();
    var buffer := new byte[length + 1];
    var n, i, j := 0, 0, 0;
    var ch: int := 0;
    ghost var text := BeforePad(str);
    NothingSeen();
    // Reading past the last character yields the terminator.
    while n < |str| && str[n] != PAD
      invariant 0 <= n <= |text|
      invariant i == |Seen(text[..n])| <= n && j == 6 * i / 8
      invariant buffer[..j] == Octets(Seen(text[..n]))
      invariant i % 4 != 0 ==> Pending(Seen(text[..n]), buffer[j])
      invariant forall c: byte :: reverse[c] == if c == 0 then 64 else IndexOf(c)
    {
      ghost var q := Seen(text[..n]);
      SeenNext(text, n);
      ch := Mend(str[n]);
      n := n + 1;
      ch := reverse[ch];
      if ch < 0 {
        assert Seen(text[..n]) == q;
        continue;
      }
      assert Seen(text[..n]) == q + [ch];
      j := PlaceSextet(buffer, i, j, ch, q);
      i := i + 1;
    }
    assert text[..n] == text;
    AllSeen(text);
    if i % 4 == 2 {
      PendingIsLeftOver(text, buffer[j]);
    }
    result := MopUp(buffer, i, j, n < |str|);
    retLength := j;
  }

  lemma NothingSeen()
    ensures Seen([]) == [] && Octets([]) == []
  {
  }

  /** The text of which all was seen is decoded when its octets are. */
  lemma AllSeen(text: Str)
    ensures |Seen(text)| == |Cleaned(text)| && Octets(Seen(text)) == Decode(Cleaned(text))
  {
    hide Cleaned, Octets, Decode;
    AllInAlphabet(Cleaned(text));
  }

  lemma PendingIsLeftOver(text: Str, b: byte)
    requires |Seen(text)| % 4 == 2 && Pending(Seen(text), b)
    ensures |Cleaned(text)| >= 2 && b == LeftOver(Cleaned(text))
  {
    hide IndexOf, Cleaned;
  }

  /**
   * After the loop: gives up when a pad came too early, otherwise terminates the result; after two characters
   * and a pad it leaves one more byte before the terminator.
   */
  method MopUp(buffer: array<byte>, i: nat, j: nat, padded: bool) returns (result: array?<byte>)
    requires j == 6 * i / 8 && i < buffer.Length && (padded ==> i + 1 < buffer.Length)
    modifies buffer
    ensures result == null <==> padded && i % 4 <= 1
    ensures result != null ==> result == buffer && buffer[..j] == old(buffer[..j])
    ensures result != null ==> buffer[j] == if padded && i % 4 == 2 then old(buffer[j]) else 0
    ensures result != null ==> var end := j + if padded then 4 - i % 4 else 0;
                               end < buffer.Length && buffer[end] == 0
  {
    Place(i);
    var k := j;
    if padded {
      if i % 4 <= 1 {
        return null;
      }
      if i % 4 == 2 {
        k := k + 1;
      }
      buffer[k] := 0;
      k := k + 1;
    }
    buffer[k] := 0;
    return buffer;
  }

  /** The `switch (i % 4)` of the decoder: completes the pending byte and starts the next one. */
  method PlaceSextet(result: array<byte>, i: nat, j0: nat, ch: sextet, ghost q: seq<sextet>) returns (j: nat)
    requires i == |q| && j0 == 6 * i / 8 && i + 1 < result.Length
    requires result[..j0] == Octets(q)
    requires i % 4 != 0 ==> Pending(q, result[j0])
    modifies result
    ensures j == 6 * (i + 1) / 8 && result[..j] == Octets(q + [ch])
    ensures (i + 1) % 4 != 0 ==> Pending(q + [ch], result[j])
  {
    hide Octets, Octet, Pending, BitOr, Indices;
    Place(i);
    Place(i + 1);
    j := j0;
    ghost var b := result[j];
    if i % 4 == 0 {
      result[j] := ch * 4;
      OctetsStart(q, ch);
      assert result[..j] == Octets(q);
    } else if i % 4 == 1 {
      OctetsSecond(q, ch, b);
      result[j] := BitOr(result[j], ch / 16);
      j := j + 1;
      result[j] := ch % 16 * 16;
      assert result[..j] == Octets(q) + [BitOr(b, ch / 16)];
    } else if i % 4 == 2 {
      OctetsThird(q, ch, b);
      result[j] := BitOr(result[j], ch / 4);
      j := j + 1;
      result[j] := ch % 4 * 64;
      assert result[..j] == Octets(q) + [BitOr(b, ch / 4)];
    } else {
      OctetsFourth(q, ch, b);
      result[j] := BitOr(result[j], ch);
      j := j + 1;
      assert result[..j] == Octets(q) + [BitOr(b, ch)];
    }
  }

  lemma SeenNext(t: Str, n: nat)
    requires n < |t|
    ensures Seen(t[..n + 1]) == Seen(t[..n]) + if IndexOf(Mend(t[n])) >= 0 then [IndexOf(Mend(t[n]))] else []
  {
    hide IndexOf;
    assert t[..n + 1][..n] == t[..n];
  }

  /** One more sextet completes one octet, or none, and leaves the earlier ones alone. */
  lemma OctetsGrow(q: seq<sextet>, x: sextet)
    ensures Octets(q + [x]) == Octets(q) + if |q| % 4 == 0 then [] else [Octet(q + [x], 6 * |q| / 8)]
  {
    hide Octet;
    forall k | 0 <= k < 6 * |q| / 8
      ensures Octet(q + [x], k) == Octet(q, k)
    {
      OctetStable(q, q + [x], k);
    }
  }

  /** Where the octet lies that sextet i completes. */
  lemma Place(i: nat)
    ensures i % 4 == 0 ==> 6 * i / 8 == 3 * (i / 4)
    ensures i % 4 == 1 ==> 6 * i / 8 == 3 * (i / 4)
    ensures i % 4 == 2 ==> 6 * i / 8 == 3 * (i / 4) + 1
    ensures i % 4 == 3 ==> 6 * i / 8 == 3 * (i / 4) + 2
  {
    var g := i / 4;
    if i % 4 == 0 {
      DivModUnique(6 * i, 8, 3 * g, 0);
    } else if i % 4 == 1 {
      DivModUnique(6 * i, 8, 3 * g, 6);
    } else if i % 4 == 2 {
      DivModUnique(6 * i, 8, 3 * g + 1, 4);
    } else {
      DivModUnique(6 * i, 8, 3 * g + 2, 2);
    }
  }

  lemma OctetsStart(q: seq<sextet>, x: sextet)
    requires |q| % 4 == 0
    ensures Octets(q + [x]) == Octets(q) && Pending(q + [x], 4 * (x as int))
  {
    hide Octet, Octets;
    OctetsGrow(q, x);
  }

  lemma OctetsSecond(q: seq<sextet>, x: sextet, b: byte)
    requires |q| % 4 == 1 && Pending(q, b)
    ensures Octets(q + [x]) == Octets(q) + [BitOr(b, x / 16)]
    ensures BitOr(b, x / 16) < 256 && Pending(q + [x], 16 * (x as int % 16))
  {
    hide Octet, Octets, Bitwise, Pow2;
    OctetsGrow(q, x);
    Place(|q|);
    OctetGroup(q + [x], |q| / 4);
    Merge(q[|q| - 1], x / 16, 2);
  }

  lemma OctetsThird(q: seq<sextet>, x: sextet, b: byte)
    requires |q| % 4 == 2 && Pending(q, b)
    ensures Octets(q + [x]) == Octets(q) + [BitOr(b, x / 4)]
    ensures BitOr(b, x / 4) < 256 && Pending(q + [x], 64 * (x as int % 4))
  {
    hide Octet, Octets, Bitwise, Pow2;
    OctetsGrow(q, x);
    Place(|q|);
    OctetGroup(q + [x], |q| / 4);
    Merge(q[|q| - 1] % 16, x / 4, 4);
  }

  lemma OctetsFourth(q: seq<sextet>, x: sextet, b: byte)
    requires |q| % 4 == 3 && Pending(q, b)
    ensures Octets(q + [x]) == Octets(q) + [BitOr(b, x)] && BitOr(b, x) < 256
  {
    hide Octet, Octets, Bitwise, Pow2;
    OctetsGrow(q, x);
    Place(|q|);
    OctetGroup(q + [x], |q| / 4);
    Merge(q[|q| - 1] % 4, x, 6);
  }

  /** The bits of the new sextet fall where the pending byte is still clear. */
  lemma Merge(high: nat, low: nat, k: nat)
    requires (k == 2 && low < 4) || (k == 4 && low < 16) || (k == 6 && low < 64)
    ensures k == 2 ==> BitOr(4 * high, low) == 4 * high + low
    ensures k == 4 ==> BitOr(16 * high, low) == 16 * high + low
    ensures k == 6 ==> BitOr(64 * high, low) == 64 * high + low
  {
    hide Bitwise, Pow2;
    SmallPowers();
    OrDisjoint(high, low, k);
  }

  /** A whole octet only depends on sextets that are already there. */
  lemma OctetStable(q: seq<sextet>, q': seq<sextet>, k: nat)
    requires q <= q' && k < 6 * |q| / 8
    ensures Octet(q', k) == Octet(q, k)
  {
    hide SextetBit, FromBits8;
    assert forall j: nat | j < 8 * k + 8 :: SextetStreamBit(q', j) == SextetStreamBit(q, j);
  }

  lemma AllInAlphabet(u: Str)
    requires forall i :: 0 <= i < |u| ==> IndexOf(u[i]) >= 0
    ensures Decode(u) == Octets(Indices(u))
  {
    hide IndexOf;
    PrefixOf(u, |u|);
    assert u[..|u|] == u;
  }

  // ----- what cleaning means -----

  lemma {:induction false} CleanedConcat(x: Str, y: Str)
    ensures Cleaned(x + y) == Cleaned(x) + Cleaned(y)
    decreases |y|
  {
    hide IndexOf, Mend;
    if y == [] {
      assert x + y == x;
    } else {
      var n := |y| - 1;
      assert (x + y)[..|x + y| - 1] == x + y[..n];
      CleanedConcat(x, y[..n]);
    }
  }

  /** One character: kept when it is in the alphabet, a plus sign for a space, otherwise nothing. */
  lemma CleanedCharacter(c: byte)
    ensures Cleaned([c]) == if InAlphabet(c) then [c] else if c == ' ' as int then ['+' as int] else []
  {
    assert [c][..0] == [] && Cleaned([]) == [];
    assert Alphabet(62) == 43;
    if InAlphabet(c) {
      var q: sextet :| Alphabet(q) == c;
      IndexOfAlphabet(q);
      IndexOfAlphabet(62);
    }
  }

  /** What posting does to a text: every plus sign arrives as a space. */
  function Posted(t: Str): (u: Str)
    ensures |u| == |t|
    ensures forall i :: 0 <= i < |t| ==> u[i] == if t[i] == '+' as int then ' ' as int else t[i]
  {
    seq(|t|, i requires 0 <= i < |t| => if t[i] == 43 then 32 else t[i])
  }

  lemma {:induction false} CleanedPosted(t: Str)
    ensures Cleaned(Posted(t)) == Cleaned(t)
  {
    hide IndexOf;
    if t != [] {
      var n := |t| - 1;
      assert Posted(t)[..n] == Posted(t[..n]);
      CleanedPosted(t[..n]);
    }
  }

  lemma {:induction false} BeforePadPosted(t: Str)
    ensures BeforePad(Posted(t)) == Posted(BeforePad(t))
  {
    if t != [] && t[0] != PAD {
      assert Posted(t)[1..] == Posted(t[1..]);
      BeforePadPosted(t[1..]);
    }
  }

  /** Posting is undone, for any text and so for an encoding: it still decodes to its bytes. */
  lemma PostingIsUndone(t: Str, s: seq<byte>)
    ensures Cleaned(BeforePad(Posted(t))) == Cleaned(BeforePad(t))
    ensures Decode(Cleaned(BeforePad(Posted(Encode(s))))) == s
  {
    hide Cleaned, BeforePad, Encode, Decode, LeftOver;
    BeforePadPosted(t);
    CleanedPosted(BeforePad(t));
    BeforePadPosted(Encode(s));
    CleanedPosted(BeforePad(Encode(s)));
    HRoundTrip(s);
  }

  // ----- what the tolerant decoder does with an encoding -----

  lemma {:induction false} CleanAlphabet(t: Str)
    requires forall i :: 0 <= i < |t| ==> IndexOf(t[i]) >= 0
    ensures Cleaned(t) == t
  {
    if t != [] {
      CleanAlphabet(t[..|t| - 1]);
      assert IndexOf(32) == -1;
    }
  }

  lemma {:induction false} BeforePadOf(u: Str, t: Str)
    requires u <= t && PAD !in u && (|u| < |t| ==> t[|u|] == PAD)
    ensures BeforePad(t) == u
  {
    if u != [] {
      BeforePadOf(u[1..], t[1..]);
    }
  }

  /** The characters before the pads of an encoding are what the tolerant decoder keeps. */
  lemma CleanEncoding(s: seq<byte>)
    ensures Cleaned(BeforePad(Encode(s))) == Characters(Sextets(s))
    ensures PAD in Encode(s) <==> PadCount(|s|) > 0
  {
    hide IndexOf, Sextets;
    var u := Characters(Sextets(s));
    forall i | 0 <= i < |u|
      ensures IndexOf(u[i]) >= 0
    {
      IndexOfAlphabet(Sextets(s)[i]);
    }
    PadIsOutside();
    BeforePadOf(u, Encode(s));
    CleanAlphabet(u);
  }

  lemma DecodeCharacters(q: seq<sextet>)
    ensures Decode(Characters(q)) == Octets(q)
  {
    hide IndexOf, Octets;
    var u := Characters(q);
    forall i | 0 <= i < |u|
      ensures IndexOf(u[i]) == q[i]
    {
      IndexOfAlphabet(q[i]);
    }
    AllInAlphabet(u);
    assert Indices(u) == q;
  }

  /**
   * Decoding an encoding never fails and gives back the bytes, and so their exact number; no bits are left over,
   * so the terminator follows the data at once.
   */
  lemma HRoundTrip(s: seq<byte>)
    ensures var u := Cleaned(BeforePad(Encode(s)));
            && !(PAD in Encode(s) && |u| % 4 <= 1) && Decode(u) == s
            && (|u| % 4 == 2 ==> LeftOver(u) == 0)
  {
    hide Cleaned, BeforePad, Characters, Sextets, Octets, Encode, Decode, SextetCount, PadCount, LeftOver;
    CleanEncoding(s);
    DecodeCharacters(Sextets(s));
    SextetsRoundTrip(s);
    LastGroup(|s|);
    if |s| % 3 == 1 {
      LastSextet(s, |s| / 3);
      LeftOverOf(Sextets(s), s[3 * (|s| / 3)] % 4);
    }
  }

  /** How many characters the last group has before its pads. */
  lemma LastGroup(n: nat)
    ensures SextetCount(n) % 4 == (if n % 3 == 0 then 0 else n % 3 + 1) && (PadCount(n) > 0 <==> n % 3 != 0)
  {
    hide SextetCount, PadCount;
    Counts(n);
    DivModUnique(SextetCount(n), 4, n / 3, if n % 3 == 0 then 0 else n % 3 + 1);
  }

  /** The last sextet of a group of one byte has two bits of data, in front. */
  lemma LastSextet(s: seq<byte>, g: nat)
    requires |s| == 3 * g + 1
    ensures |Sextets(s)| == 4 * g + 2 && Sextets(s)[4 * g + 1] == 16 * (s[3 * g] % 4)
  {
    hide Sextet, SextetCount, PadCount;
    DivModUnique(|s|, 3, g, 1);
    Counts(|s|);
    GroupAt(s, 3 * g, 4 * g);
  }

  lemma LeftOverOf(q: seq<sextet>, x: nat)
    requires q != [] && q[|q| - 1] == 16 * x
    ensures LeftOver(Characters(q)) == 0
  {
    hide IndexOf, Alphabet;
    IndexOfAlphabet(q[|q| - 1]);
    DivModUnique(q[|q| - 1], 16, x, 0);
  }

  /** Encoding and then decoding with the tolerant decoder gives the bytes back, terminated after the last one. */
  method EncodeAndDecode(s: seq<byte>) returns (data: array<byte>, count: nat)
    ensures count == |s| < data.Length && data[..count] == s && data[count] == 0
  {
    hide Encode, Decode, Cleaned, BeforePad, LeftOver, EncodedCapacity;
    var encoded, length := HEncode(s);
    EncodingIsNulFree(s);
    HRoundTrip(s);
    var result, n := HDecode(encoded[..length], length);
    data, count := result, n;
  }

  /** What posting does, in place. */
  method Post(text: array<byte>, length: nat)
    requires length <= text.Length
    modifies text
    ensures text[..length] == Posted(old(text[..length])) && text[length..] == old(text[length..])
  {
    for i := 0 to length
      invariant text[..i] == Posted(old(text[..i])) && text[i..] == old(text[i..])
    {
      if text[i] == '+' as int {
        text[i] := ' ' as int;
      }
    }
  }

  /** Encoding, posting and then decoding gives the bytes back all the same. */
  method EncodePostAndDecode(s: seq<byte>) returns (data: array<byte>, count: nat)
    ensures count == |s| < data.Length && data[..count] == s && data[count] == 0
  {
    hide Encode, Decode, Cleaned, BeforePad, LeftOver, EncodedCapacity, Posted;
    var encoded, length := HEncode(s);
    Post(encoded, length);
    ghost var t := Encode(s);
    PostedText(t);
    EncodingIsNulFree(s);
    HRoundTrip(s);
    PostingIsUndone(t, s);
    var result, n := HDecode(encoded[..length], length);
    data, count := result, n;
  }

  lemma PostedText(t: Str)
    ensures NulFree(t) ==> NulFree(Posted(t))
    ensures PAD in Posted(t) <==> PAD in t
  {
    forall i | 0 <= i < |t|
      ensures t[i] == PAD <==> Posted(t)[i] == PAD
    {
    }
    if PAD in t {
      var i :| 0 <= i < |t| && t[i] == PAD;
      assert Posted(t)[i] == PAD;
    }
  }
}

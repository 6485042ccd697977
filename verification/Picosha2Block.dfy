/** The block compressor of picosha2. */
module Picosha2Block {
  import opened Bytes
  import opened Bits
  import opened Sha256Spec
  import opened Picosha2Words

  /** The eight words of a hash value, in order. */
  function Words(v: Vars): (s: seq<word_t>)
    ensures |s| == 8
  {
    [v.a, v.b, v.c, v.d, v.e, v.f, v.g, v.h]
  }

  /** Fills the 64-word schedule in place: 16 loads, then 48 masked sums. */
  method FillSchedule(block: seq<byte>) returns (w: array<word_t>)
    requires |block| == 64
    ensures fresh(w) && w.Length == 64
    ensures forall t :: 0 <= t < 64 ==> w[t] == W(block, t)
  {
    hide W, NextW, Mask32, ScheduleSum, LoadWord, BlockWord;
    w := new word_t[64](_ => 0);
    for i := 0 to 16
      invariant forall t :: 0 <= t < i ==> w[t] == W(block, t)
    {
      w[i] := LoadWord(block, 4 * i);
      FirstWords(block, i);
    }
    for i := 16 to 64
      invariant forall t :: 0 <= t < i ==> w[t] == W(block, t)
    {
      w[i] := Mask32(ScheduleSum(w[i - 2], w[i - 7], w[i - 15], w[i - 16]));
      LaterWords(block, i);
    }
  }

  lemma FirstWords(block: seq<byte>, t: nat)
    requires |block| == 64 && t < 16
    ensures LoadWord(block, 4 * t) == W(block, t)
  {
    LoadAgrees(block, t);
  }

  lemma LaterWords(block: seq<byte>, t: nat)
    requires |block| == 64 && 16 <= t < 64
    ensures Mask32(ScheduleSum(W(block, t - 2), W(block, t - 7), W(block, t - 15), W(block, t - 16))) == W(block, t)
  {
    hide Mask32, ScheduleSum, BlockWord, NextW;
    ScheduleAgrees(W(block, t - 2), W(block, t - 7), W(block, t - 15), W(block, t - 16));
  }

  /** Runs the 64 rounds on copies of the digest words. */
  method RunRounds(digest: array<word_t>, w: array<word_t>, ghost block: seq<byte>, ghost v: Vars)
    returns (a: word_t, b: word_t, c: word_t, d: word_t, e: word_t, f: word_t, g: word_t, h: word_t)
    requires digest.Length == 8 && digest[..] == Words(v)
    requires |block| == 64 && w.Length == 64
    requires forall t :: 0 <= t < 64 ==> w[t] == W(block, t)
    ensures [a, b, c, d, e, f, g, h] == Words(Rounds(v, block, 64))
  {
    hide W, Mask32, Temp1, Temp2, Add64, K, Rounds, Round;
    a, b, c, d := digest[0], digest[1], digest[2], digest[3];
    e, f, g, h := digest[4], digest[5], digest[6], digest[7];
    ghost var r := v;
    RoundsZero(v, block);
    for i := 0 to 64
      invariant r == Rounds(v, block, i)
      invariant a == r.a && b == r.b && c == r.c && d == r.d && e == r.e && f == r.f && g == r.g && h == r.h
    {
      var temp1 := Temp1(e, f, g, h, K(i), w[i]);
      var temp2 := Temp2(a, b, c);
      RoundAgrees(r, K(i), W(block, i));
      h := g;
      g := f;
      f := e;
      e := Mask32(Add64(d, temp1));
      d := c;
      c := b;
      b := a;
      a := Mask32(Add64(temp1, temp2));
      RoundsStep(v, block, i);
      r := Rounds(v, block, i + 1);
    }
  }

  lemma RoundsZero(v: Vars, block: seq<byte>)
    requires |block| == 64
    ensures Rounds(v, block, 0) == v
  {
  }

  lemma RoundsStep(v: Vars, block: seq<byte>, t: nat)
    requires |block| == 64 && t < 64
    ensures var r, n := Rounds(v, block, t), Rounds(v, block, t + 1);
            && n == Round(r, K(t), W(block, t))
            && n.b == r.a && n.c == r.b && n.d == r.c && n.f == r.e && n.g == r.f && n.h == r.g
  {
    hide K, W;
  }

  /** Adds the working variables to the digest words, without masking. */
  method AddWords(digest: array<word_t>, a: word_t, b: word_t, c: word_t, d: word_t,
                  e: word_t, f: word_t, g: word_t, h: word_t)
    requires digest.Length == 8
    modifies digest
    ensures digest[0] == Add64(old(digest[0]), a) && digest[1] == Add64(old(digest[1]), b)
    ensures digest[2] == Add64(old(digest[2]), c) && digest[3] == Add64(old(digest[3]), d)
    ensures digest[4] == Add64(old(digest[4]), e) && digest[5] == Add64(old(digest[5]), f)
    ensures digest[6] == Add64(old(digest[6]), g) && digest[7] == Add64(old(digest[7]), h)
  {
    hide Add64;
    digest[0] := Add64(digest[0], a);
    digest[1] := Add64(digest[1], b);
    digest[2] := Add64(digest[2], c);
    digest[3] := Add64(digest[3], d);
    digest[4] := Add64(digest[4], e);
    digest[5] := Add64(digest[5], f);
    digest[6] := Add64(digest[6], g);
    digest[7] := Add64(digest[7], h);
  }

  /** Masks every digest word. */
  method MaskWords(digest: array<word_t>)
    requires digest.Length == 8
    modifies digest
    ensures forall k :: 0 <= k < 8 ==> digest[k] == Mask32(old(digest[k]))
  {
    hide Mask32;
    for i := 0 to 8
      invariant forall k :: 0 <= k < 8 ==> digest[k] == if k < i then Mask32(old(digest[k])) else old(digest[k])
    {
      digest[i] := Mask32(digest[i]);
    }
  }

  /**
   * Replaces the digest words in place by the hash value after one more block. The ghost argument
   * names the hash value that the words hold on entry.
   */
  method Hash256Block(digest: array<word_t>, block: seq<byte>, ghost v: Vars)
    requires |block| == 64
    requires digest.Length == 8 && digest[..] == Words(v)
    modifies digest
    ensures digest[..] == Words(Compress(v, block))
  {
    hide W, Mask32, Rounds, Add, Add64, Words, Compress;
    var w := FillSchedule(block);
    ghost var words := digest[..];
    var a, b, c, d, e, f, g, h := RunRounds(digest, w, block, v);
    ghost var r := [a, b, c, d, e, f, g, h];
    AddWords(digest, a, b, c, d, e, f, g, h);
    ghost var sums := digest[..];
    assert forall k :: 0 <= k < 8 ==> sums[k] == Add64(words[k], r[k]);
    MaskWords(digest);
    MaskedSums(v, block, words, r, digest[..]);
  }

  lemma WordsOf(v: Vars)
    ensures Words(v) == [v.a, v.b, v.c, v.d, v.e, v.f, v.g, v.h]
  {
  }

  /** Adding the old digest and masking at the very end is the last step of section 6.2.2. */
  lemma MaskedSums(v: Vars, block: seq<byte>, words: seq<word_t>, r: seq<word_t>, s: seq<word_t>)
    requires |block| == 64 && |s| == 8
    requires words == Words(v) && r == Words(Rounds(v, block, 64))
    requires forall k :: 0 <= k < 8 ==> s[k] == Mask32(Add64(words[k], r[k]))
    ensures s == Words(Compress(v, block))
  {
    hide Rounds, Add, Add64, Mask32;
    var t := Rounds(v, block, 64);
    MaskedSum(v.a, t.a); MaskedSum(v.b, t.b); MaskedSum(v.c, t.c); MaskedSum(v.d, t.d);
    MaskedSum(v.e, t.e); MaskedSum(v.f, t.f); MaskedSum(v.g, t.g); MaskedSum(v.h, t.h);
  }

  lemma MaskedSum(x: word, y: word)
    ensures Mask32(Add64(x, y)) == Add(x, y)
  {
    MaskKeepsLow(Add64(x, y));
    SumAgrees(x, y);
  }
}

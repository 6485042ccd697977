/** Texts put together from copies of two words, and when they can be read in one way only. */
module TwoWordCode {
  import opened Bytes

  /** The text that some marks spell, with u for false and v for true. */
  function Spell(u: Str, v: Str, x: seq<bool>): Str {
    if x == [] then [] else (if x[0] then v else u) + Spell(u, v, x[1..])
  }

  /** Each true mark gets a false one before it. */
  function Expand(x: seq<bool>): seq<bool> {
    if x == [] then [] else (if x[0] then [false, true] else [false]) + Expand(x[1..])
  }

  /** Every mark changed. */
  function Flip(x: seq<bool>): (r: seq<bool>)
    ensures |r| == |x|
  {
    seq(|x|, i requires 0 <= i < |x| => !x[i])
  }

  lemma SpellFront(u: Str, v: Str, a: bool, x: seq<bool>)
    ensures Spell(u, v, [a] + x) == (if a then v else u) + Spell(u, v, x)
  {
    assert ([a] + x)[1..] == x;
  }

  lemma {:induction false} SpellFlip(u: Str, v: Str, x: seq<bool>)
    ensures Spell(u, v, x) == Spell(v, u, Flip(x))
  {
    if x != [] {
      SpellFlip(u, v, x[1..]);
      assert Flip(x)[1..] == Flip(x[1..]);
    }
  }

  /** When the second word starts with the first, it can be spelled by the first and the rest. */
  lemma {:induction false} SpellExpand(u: Str, t: Str, x: seq<bool>)
    ensures Spell(u, u + t, x) == Spell(u, t, Expand(x))
  {
    if x != [] {
      var rest := Expand(x[1..]);
      SpellExpand(u, t, x[1..]);
      if x[0] {
        SpellFront(u, t, true, rest);
        SpellFront(u, t, false, [true] + rest);
        assert [false, true] + rest == [false] + ([true] + rest);
        assert u + t + Spell(u, t, rest) == u + (t + Spell(u, t, rest));
      } else {
        SpellFront(u, t, false, rest);
      }
    }
  }

  /** Expanding keeps marks apart that differ at the front: only one of the results goes on with a true mark. */
  lemma ExpandApart(x: seq<bool>, y: seq<bool>)
    requires x != [] && y != [] && !x[0] && y[0]
    ensures Expand(x) != Expand(y)
  {
    assert Expand(y)[1];
    if x[1..] != [] {
      assert !Expand(x[1..])[0];
    }
  }

  lemma Cancel(w: Str, s: Str, t: Str)
    requires w + s == w + t
    ensures s == t
  {
    assert (w + s)[|w|..] == s && (w + t)[|w|..] == t;
  }

  /** Of two words that start the same text, the shorter one starts the longer. */
  lemma Prefixes(u: Str, s: Str, v: Str, t: Str)
    requires u + s == v + t && |u| <= |v|
    ensures v == u + v[|u|..]
  {
    assert (u + s)[..|u|] == u && (v + t)[..|u|] == v[..|u|];
  }

  /** A word and its rest commute only if the words did. */
  lemma RestDoesNotCommute(u: Str, t: Str)
    requires u + (u + t) != (u + t) + u
    ensures u + t != t + u
  {
    assert u + (t + u) == (u + t) + u;
  }

  /** Two words that do not commute spell no text in two ways. */
  lemma {:induction false} SpelledOnce(u: Str, v: Str, x: seq<bool>, y: seq<bool>)
    requires u + v != v + u && Spell(u, v, x) == Spell(u, v, y)
    ensures x == y
    decreases |u| + |v|, |x| + |y|, 1
  {
    assert u != [] by {
      assert u == [] ==> u + v == v == v + u;
    }
    assert v != [] by {
      assert v == [] ==> u + v == u == v + u;
    }
    if x != [] && y != [] {
      if x[0] == y[0] {
        Cancel(if x[0] then v else u, Spell(u, v, x[1..]), Spell(u, v, y[1..]));
        SpelledOnce(u, v, x[1..], y[1..]);
        assert x == [x[0]] + x[1..] && y == [y[0]] + y[1..];
      } else if y[0] {
        SpelledApart(u, v, x, y);
      } else {
        SpelledApart(u, v, y, x);
      }
    }
  }

  /** Marks that differ at the front spell different texts. */
  lemma {:induction false} SpelledApart(u: Str, v: Str, x: seq<bool>, y: seq<bool>)
    requires u + v != v + u && u != [] && v != []
    requires x != [] && y != [] && !x[0] && y[0]
    ensures Spell(u, v, x) != Spell(u, v, y)
    decreases |u| + |v|, |x| + |y|, 0
  {
    if Spell(u, v, x) == Spell(u, v, y) {
      if |u| <= |v| {
        Prefixes(u, Spell(u, v, x[1..]), v, Spell(u, v, y[1..]));
        FirstStartsSecond(u, v[|u|..], x, y);
      } else {
        Prefixes(v, Spell(u, v, y[1..]), u, Spell(u, v, x[1..]));
        SpellFlip(u, v, x);
        SpellFlip(u, v, y);
        FirstStartsSecond(v, u[|v|..], Flip(y), Flip(x));
      }
    }
  }

  /** The case that the second word is u + t: cut u off and use shorter words. */
  lemma {:induction false} FirstStartsSecond(u: Str, t: Str, x: seq<bool>, y: seq<bool>)
    requires u + (u + t) != (u + t) + u && u != []
    requires x != [] && y != [] && !x[0] && y[0]
    ensures Spell(u, u + t, x) != Spell(u, u + t, y)
    decreases |u| + |u + t|, 0, 0
  {
    RestDoesNotCommute(u, t);
    SpellExpand(u, t, x);
    SpellExpand(u, t, y);
    ExpandApart(x, y);
    if Spell(u, t, Expand(x)) == Spell(u, t, Expand(y)) {
      SpelledOnce(u, t, Expand(x), Expand(y));
    }
  }
}

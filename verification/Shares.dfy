/** Collecting key shares: tokens on the server, a growing set on the client, a file of lines between. */
module Shares {
  import opened Bytes

  const NEWLINE: byte := 10

  /** A character matched by the separator expression: white space, a bar or a comma. */
  predicate IsSeparator(c: byte) {
    9 <= c <= 13 || c == 32 || c == 124 || c == 44
  }

  predicate IsToken(t: Str) {
    t != [] && forall i :: 0 <= i < |t| ==> !IsSeparator(t[i])
  }

  /** The pieces of `str` between separators, empty ones dropped; `current` is the piece being read. */
  function Tokens(current: Str, str: Str): (ts: seq<Str>)
    requires forall i :: 0 <= i < |current| ==> !IsSeparator(current[i])
    ensures forall t :: t in ts ==> IsToken(t)
    decreases |str|
  {
    if str == [] then if current == [] then [] else [current]
    else if IsSeparator(str[0]) then (if current == [] then [] else [current]) + Tokens([], str[1..])
    else Tokens(current + [str[0]], str[1..])
  }

  function Tokenize(str: Str): (ts: seq<Str>)
    ensures forall t :: t in ts ==> IsToken(t)
  {
    Tokens([], str)
  }

  class ShareServer {
    var sharesString: Str
    /** The replies given so far. */
    ghost var issued: seq<Str>

    constructor (sharesString: Str)
      ensures this.sharesString == sharesString && issued == []
    {
      this.sharesString, issued := sharesString, [];
    }

    /** `GetShare`: one of the first three tokens, at random. */
    method GetShare() returns (reply: Str)
      requires |Tokenize(sharesString)| >= 3
      modifies this`issued
      ensures reply in Tokenize(sharesString)[..3] && issued == old(issued) + [reply]
    {
      var tokenized := Tokenize(sharesString);
      var r :| 0 <= r <= 2;
      reply := tokenized[r];
      issued := issued + [reply];
    }
  }

  // ----- the file of shares -----

  /** A file with each string on its own line. */
  function LinesOf(ts: seq<Str>): Str {
    if ts == [] then [] else LinesOf(ts[..|ts| - 1]) + ts[|ts| - 1] + [NEWLINE]
  }

  /** How far it is to the next newline, or to the end. */
  function LineLength(s: Str): (n: nat)
    ensures n <= |s| && NEWLINE !in s[..n]
    ensures n < |s| ==> s[n] == NEWLINE
  {
    if s == [] || s[0] == NEWLINE then 0 else 1 + LineLength(s[1..])
  }

  /** One line is closed by a line feed, byte 10, and nothing else. */
  lemma OneLine(t: Str)
    ensures LinesOf([t]) == t + [10] && LinesOf([]) == []
  {
    assert [t][..0] == [];
    assert [] + t + [NEWLINE] == t + [10];
  }

  /** The lines that successive calls of `getline` deliver. */
  function Split(s: Str): seq<Str>
    decreases |s|
  {
    if s == [] then []
    else
      var n := LineLength(s);
      [s[..n]] + if n < |s| then Split(s[n + 1..]) else []
  }

  /** `write_share`: one line for each element; the order is that of the container. */
  method WriteShare(shareSet: set<Str>) returns (file: Str, ghost order: seq<Str>)
    ensures file == LinesOf(order)
    ensures |order| == |shareSet| && forall t :: t in order <==> t in shareSet
  {
    file, order := [], [];
    var rest := shareSet;
    while rest != {}
      invariant rest <= shareSet && |order| == |shareSet| - |rest|
      invariant forall t :: t in order <==> t in shareSet && t !in rest
      invariant file == LinesOf(order)
      decreases |rest|
    {
      var it :| it in rest;
      file := file + it + [NEWLINE];
      assert (order + [it])[..|order|] == order;
      order := order + [it];
      rest := rest - {it};
    }
  }

  /** `read_share`: reads the file line by line and closes every line with a newline again. */
  method ReadShare(file: Str) returns (shareString: Str)
    ensures shareString == LinesOf(Split(file))
  {
    hide Split, LinesOf;
    shareString := [];
    var rest := file;
    ghost var read: seq<Str> := [];
    SplitNothing();
    while rest != []
      invariant read + Split(rest) == Split(file)
      invariant shareString == LinesOf(read)
      decreases |rest|
    {
      var n := LineLength(rest);
      ghost var after := if n < |rest| then rest[n + 1..] else [];
      SplitStep(rest);
      LinesOfBack(read, rest[..n]);
      Reassociate(read, rest[..n], Split(after));
      shareString := shareString + rest[..n] + [NEWLINE];
      read := read + [rest[..n]];
      rest := if n < |rest| then rest[n + 1..] else [];
    }
    assert read == Split(file);
  }

  lemma Reassociate(xs: seq<Str>, x: Str, ys: seq<Str>)
    ensures xs + ([x] + ys) == (xs + [x]) + ys
  {
  }

  lemma SplitNothing()
    ensures Split([]) == [] && LinesOf([]) == []
  {
  }

  lemma SplitStep(s: Str)
    requires s != []
    ensures var n := LineLength(s);
            Split(s) == [s[..n]] + Split(if n < |s| then s[n + 1..] else [])
  {
  }

  lemma LinesOfBack(ts: seq<Str>, t: Str)
    ensures LinesOf(ts + [t]) == LinesOf(ts) + t + [NEWLINE]
  {
    assert (ts + [t])[..|ts|] == ts;
  }

  lemma {:induction false} LinesOfFront(t: Str, ts: seq<Str>)
    ensures LinesOf([t] + ts) == t + [NEWLINE] + LinesOf(ts)
  {
    var all := [t] + ts;
    if ts == [] {
      assert all[..0] == [];
    } else {
      assert all[..|all| - 1] == [t] + ts[..|ts| - 1];
      LinesOfFront(t, ts[..|ts| - 1]);
    }
  }

  lemma {:induction false} LineLengthOf(t: Str, rest: Str)
    requires NEWLINE !in t
    ensures LineLength(t + [NEWLINE] + rest) == |t|
  {
    var s := t + [NEWLINE] + rest;
    if t != [] {
      assert s[1..] == t[1..] + [NEWLINE] + rest;
      LineLengthOf(t[1..], rest);
    }
  }

  /** Splitting undoes writing, for strings without newlines. */
  lemma {:induction false} SplitLinesOf(ts: seq<Str>)
    requires forall t :: t in ts ==> NEWLINE !in t
    ensures Split(LinesOf(ts)) == ts
    decreases |ts|
  {
    if ts != [] {
      var t, rest := ts[0], LinesOf(ts[1..]);
      assert ts == [t] + ts[1..];
      LinesOfFront(t, ts[1..]);
      LineLengthOf(t, rest);
      var s := t + [NEWLINE] + rest;
      assert s[..|t|] == t && s[|t| + 1..] == rest;
      SplitLinesOf(ts[1..]);
    }
  }

  /** Reading on through characters that do not separate. */
  lemma {:induction false} TokensThrough(current: Str, t: Str, rest: Str)
    requires forall i :: 0 <= i < |current| ==> !IsSeparator(current[i])
    requires forall i :: 0 <= i < |t| ==> !IsSeparator(t[i])
    ensures Tokens(current, t + rest) == Tokens(current + t, rest)
    decreases |t|
  {
    if t == [] {
      assert t + rest == rest && current + t == current;
    } else {
      assert (t + rest)[1..] == t[1..] + rest;
      TokensThrough(current + [t[0]], t[1..], rest);
      assert current + [t[0]] + t[1..] == current + t;
    }
  }

  /** Tokenizing gives back any tokens that stand on lines of their own. */
  lemma {:induction false} TokenizeLines(ts: seq<Str>)
    requires forall t :: t in ts ==> IsToken(t)
    ensures Tokenize(LinesOf(ts)) == ts
    decreases |ts|
  {
    if ts != [] {
      var t, rest := ts[0], LinesOf(ts[1..]);
      assert t in ts && IsToken(t);
      assert ts == [t] + ts[1..];
      LinesOfFront(t, ts[1..]);
      assert LinesOf(ts) == t + ([NEWLINE] + rest);
      TokensThrough([], t, [NEWLINE] + rest);
      assert [] + t == t && ([NEWLINE] + rest)[1..] == rest;
      assert IsSeparator(NEWLINE) && Tokens(t, [NEWLINE] + rest) == [t] + Tokenize(rest);
      TokenizeLines(ts[1..]);
    }
  }

  lemma TokensHaveNoNewline(t: Str)
    requires IsToken(t)
    ensures NEWLINE !in t
  {
  }

  // ----- what tokenizing means -----

  /** The separators: the six white-space characters, the bar and the comma. */
  lemma Separators(c: byte)
    ensures IsSeparator(c) <==> c in {9, 10, 11, 12, 13, 32, '|' as int, ',' as int}
  {
  }

  /** A separator cuts the text: the tokens on both sides are those of the whole. */
  lemma {:induction false} TokensAt(current: Str, x: Str, c: byte, y: Str)
    requires forall i :: 0 <= i < |current| ==> !IsSeparator(current[i])
    requires IsSeparator(c)
    ensures Tokens(current, x + [c] + y) == Tokens(current, x) + Tokens([], y)
    decreases |x|
  {
    var s := x + [c] + y;
    if x == [] {
      assert s[0] == c && s[1..] == y;
    } else {
      assert s[0] == x[0] && s[1..] == x[1..] + [c] + y;
      if IsSeparator(x[0]) {
        TokensAt([], x[1..], c, y);
      } else {
        TokensAt(current + [x[0]], x[1..], c, y);
      }
    }
  }

  /**
   * The two laws that fix the tokens of every text: a separator cuts it, and a text without separators is one
   * token, or none when it is empty.
   */
  lemma TokenizeLaws(x: Str, c: byte, y: Str)
    ensures IsSeparator(c) ==> Tokenize(x + [c] + y) == Tokenize(x) + Tokenize(y)
    ensures Tokenize([]) == [] && (IsToken(x) ==> Tokenize(x) == [x])
  {
    if IsSeparator(c) {
      TokensAt([], x, c, y);
    }
    if IsToken(x) {
      TokensThrough([], x, []);
      assert x + [] == x && [] + x == x;
    }
  }

  // ----- collecting -----

  const MAX_TRY := 20

  /** The different strings among some. */
  function Distinct(ts: seq<Str>): set<Str> {
    set t | t in ts
  }

  lemma DistinctMembers(ts: seq<Str>, t: Str)
    ensures t in Distinct(ts) <==> t in ts
    ensures Distinct([]) == {}
  {
  }

  lemma DistinctNext(ts: seq<Str>, t: Str)
    ensures Distinct(ts + [t]) == Distinct(ts) + {t}
    ensures |Distinct(ts + [t])| == |Distinct(ts)| + if t in ts then 0 else 1
  {
    assert Distinct(ts + [t]) == Distinct(ts) + {t};
    if t in ts {
      assert Distinct(ts) + {t} == Distinct(ts);
    }
  }

  lemma {:induction false} DistinctSize(ts: seq<Str>)
    ensures |Distinct(ts)| <= |ts|
  {
    if ts != [] {
      DistinctSize(ts[..|ts| - 1]);
      DistinctNext(ts[..|ts| - 1], ts[|ts| - 1]);
      assert ts == ts[..|ts| - 1] + [ts[|ts| - 1]];
    }
  }

  /** A part is not larger than the whole. */
  lemma {:induction false} Within(small: set<Str>, large: set<Str>)
    requires small <= large
    ensures |small| <= |large|
  {
    assert large == small + (large - small);
  }

  lemma SetSizes(replies: seq<Str>, offered: seq<Str>)
    requires Distinct(replies) <= Distinct(offered)
    ensures |Distinct(replies)| <= |Distinct(offered)| <= |offered| && |Distinct(replies)| <= |replies|
  {
    hide Distinct;
    Within(Distinct(replies), Distinct(offered));
    DistinctSize(offered);
    DistinctSize(replies);
  }

  /** How long collecting goes on: while requests are left and fewer than `numShares` different shares are there. */
  ghost predicate GoesOn(replies: seq<Str>, numShares: int) {
    |Distinct(replies)| <= numShares && |replies| < 20 && (replies == [] || |Distinct(replies)| != numShares)
  }

  /**
   * Asks for shares until there are `numShares` different ones, at most twenty times, and hands them on
   * as text. The set is that of the replies; it stays within the threshold exactly when the threshold is
   * positive. Fewer than twenty requests to a positive threshold reach it. As only the first three tokens are ever
   * issued, a threshold above the number of different ones among them is missed after all twenty.
   */
  method GetThreshhold(server: ShareServer, numShares: int)
    returns (shareString: Str, ghost shareSet: set<Str>, ghost replies: seq<Str>)
    requires |Tokenize(server.sharesString)| >= 3
    modifies server`issued
    ensures server.issued == old(server.issued) + replies
    ensures shareSet == Distinct(replies) <= Distinct(Tokenize(server.sharesString)[..3])
    ensures |replies| <= 20 && !GoesOn(replies, numShares)
    ensures forall j :: 0 <= j < |replies| ==> GoesOn(replies[..j], numShares)
    ensures |shareSet| <= 3 && |shareSet| <= |replies|
    ensures |shareSet| <= numShares <==> numShares >= 1
    ensures numShares >= 1 && |replies| < 20 ==> |shareSet| == numShares
    ensures numShares > |Distinct(Tokenize(server.sharesString)[..3])| ==>
              |replies| == 20 && |shareSet| < numShares
    ensures |Split(shareString)| == |shareSet| && forall t :: t in Split(shareString) <==> t in shareSet
    ensures shareString == LinesOf(Split(shareString))
  {
    hide Tokenize, Distinct;
    DistinctMembers([], []);
    ghost var offered := Tokenize(server.sharesString)[..3];
    var shares: set<Str> := {};
    var i, size := 0, 0;
    replies := [];
    while size <= numShares && i < MAX_TRY
      invariant server.sharesString == old(server.sharesString)
      invariant server.issued == old(server.issued) + replies
      invariant shares == Distinct(replies) <= Distinct(offered)
      invariant size == |shares| && i == |replies| <= MAX_TRY
      invariant forall j :: 0 <= j < |replies| ==> GoesOn(replies[..j], numShares)
      invariant numShares >= 1 ==> size < numShares
      invariant i > 0 && numShares == 0 ==> size == 1
      invariant numShares < 0 ==> i == 0
      decreases MAX_TRY - i
    {
      assert GoesOn(replies, numShares) && replies[..|replies|] == replies;
      ghost var before := replies;
      var reply := server.GetShare();
      DistinctMembers(offered, reply);
      DistinctNext(replies, reply);
      replies := replies + [reply];
      assert forall j :: 0 <= j <= |before| ==> replies[..j] == before[..j];
      shares := shares + {reply};
      size := |shares|;
      if size == numShares {
        break;
      }
      i := i + 1;
    }
    shareSet := shares;
    SetSizes(replies, offered);
    var file;
    ghost var order;
    file, order := WriteShare(shares);
    shareString := ReadShare(file);
    forall t | t in order
      ensures NEWLINE !in t
    {
      OfferedIsToken(server.sharesString, t);
      TokensHaveNoNewline(t);
    }
    SplitLinesOf(order);
  }

  lemma OfferedIsToken(sharesString: Str, t: Str)
    requires |Tokenize(sharesString)| >= 3 && t in Distinct(Tokenize(sharesString)[..3])
    ensures IsToken(t)
  {
  }
}

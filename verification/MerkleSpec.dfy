/** Merkle trees as values: level-by-level pairing, and the recursive split of section 2.1 of RFC 6962. */
module MerkleSpec {
  import opened Bytes
  import opened Bits
  import opened HashText

  datatype Tree =
    | Leaf(leafHash: Str)
    | Branch(branchHash: Str, left: Tree, right: Tree)
  {
    function Hash(): Str {
      if Leaf? then leafHash else branchHash
    }

    /** Leaf hashes from left to right. */
    function Leaves(): (s: seq<Str>)
      ensures |s| >= 1
    {
      if Leaf? then [leafHash] else left.Leaves() + right.Leaves()
    }

    function Branches(): nat {
      if Leaf? then 0 else 1 + left.Branches() + right.Branches()
    }

    function Height(): nat {
      if Leaf? then 0 else 1 + if left.Height() > right.Height() then left.Height() else right.Height()
    }

    /** Every branch holds the hash of its children's hashes, joined. */
    predicate Hashed() {
      Branch? ==> branchHash == HashSha256(left.Hash() + right.Hash()) && left.Hashed() && right.Hashed()
    }
  }

  /** The branch over two trees. */
  function Join(l: Tree, r: Tree): Tree {
    Branch(HashSha256(l.Hash() + r.Hash()), l, r)
  }

  /** One level up: neighbours are joined, an odd tree at the end is promoted. */
  function PairUp(ts: seq<Tree>): (us: seq<Tree>)
    ensures |us| == (|ts| + 1) / 2
  {
    if |ts| < 2 then ts else [Join(ts[0], ts[1])] + PairUp(ts[2..])
  }

  /** Levels upwards until one tree is left. */
  function BottomUp(ts: seq<Tree>): Tree
    requires |ts| >= 1
    decreases |ts|
  {
    if |ts| == 1 then ts[0] else BottomUp(PairUp(ts))
  }

  /** The largest power of two below n. */
  function SplitPoint(n: nat): (k: nat)
    requires n >= 2
    ensures 1 <= k < n <= 2 * k
  {
    if n == 2 then 1 else 2 * SplitPoint((n + 1) / 2)
  }

  predicate IsPowerOfTwo(k: nat) {
    k == 1 || (k >= 2 && k % 2 == 0 && IsPowerOfTwo(k / 2))
  }

  /** Section 2.1 of RFC 6962, without its prefix bytes: split at the largest power of two below n. */
  function Split(ts: seq<Tree>): Tree
    requires |ts| >= 1
    decreases |ts|
  {
    if |ts| == 1 then ts[0]
    else
      var k := SplitPoint(|ts|);
      Join(Split(ts[..k]), Split(ts[k..]))
  }

  function LeafTrees(hashes: seq<Str>): (ts: seq<Tree>)
    ensures |ts| == |hashes|
  {
    seq(|hashes|, i requires 0 <= i < |hashes| => Leaf(hashes[i]))
  }

  /** The root hash over some leaf hashes. */
  function Root(hashes: seq<Str>): Str
    requires |hashes| >= 1
  {
    Split(LeafTrees(hashes)).Hash()
  }

  // ----- the split point -----

  lemma {:induction false} SplitPointIsPower(n: nat)
    requires n >= 2
    ensures IsPowerOfTwo(SplitPoint(n))
  {
    if n != 2 {
      SplitPointIsPower((n + 1) / 2);
      assert 2 * SplitPoint((n + 1) / 2) / 2 == SplitPoint((n + 1) / 2);
    }
  }

  /** Two powers of two of which neither reaches twice the other are equal: the split point is unique. */
  lemma {:induction false} PowersOfTwo(j: nat, k: nat)
    requires IsPowerOfTwo(j) && IsPowerOfTwo(k) && j < 2 * k && k < 2 * j
    ensures j == k
  {
    if j != 1 && k != 1 {
      PowersOfTwo(j / 2, k / 2);
    }
  }

  lemma SplitPointUnique(n: nat, k: nat)
    requires n >= 2 && IsPowerOfTwo(k) && k < n <= 2 * k
    ensures k == SplitPoint(n)
  {
    SplitPointIsPower(n);
    PowersOfTwo(k, SplitPoint(n));
  }

  // ----- pairing up is the recursive split -----

  /** Pairing up works on both sides of an even cut independently. */
  lemma {:induction false} PairUpConcat(xs: seq<Tree>, ys: seq<Tree>)
    requires |xs| % 2 == 0
    ensures PairUp(xs + ys) == PairUp(xs) + PairUp(ys)
    decreases |xs|
  {
    hide HashSha256, Join;
    if xs == [] {
      assert xs + ys == ys;
    } else {
      assert xs + ys == [xs[0], xs[1]] + (xs[2..] + ys);
      assert (xs + ys)[2..] == xs[2..] + ys;
      PairUpConcat(xs[2..], ys);
    }
  }

  /** One level of pairing does not change what the recursive split builds. */
  lemma {:induction false} SplitPairUp(ts: seq<Tree>)
    requires |ts| >= 2
    ensures Split(ts) == Split(PairUp(ts))
    decreases |ts|
  {
    hide HashSha256, Join;
    var k := SplitPoint(|ts|);
    var xs, ys := ts[..k], ts[k..];
    if |ts| == 2 {
      assert PairUp(ts) == [Join(ts[0], ts[1])];
    } else {
      assert k == 2 * SplitPoint((|ts| + 1) / 2);
      assert ts == xs + ys;
      PairUpConcat(xs, ys);
      assert PairUp(ts)[..k / 2] == PairUp(xs) && PairUp(ts)[k / 2..] == PairUp(ys);
      SplitPairUp(xs);
      if |ys| >= 2 {
        SplitPairUp(ys);
      } else {
        assert PairUp(ys) == ys;
      }
    }
  }

  /** The tree that is built level by level is the tree of the recursive definition. */
  lemma {:induction false} BottomUpIsSplit(ts: seq<Tree>)
    requires |ts| >= 1
    ensures BottomUp(ts) == Split(ts)
    decreases |ts|
  {
    hide HashSha256;
    if |ts| > 1 {
      SplitPairUp(ts);
      BottomUpIsSplit(PairUp(ts));
    }
  }

  // ----- what the tree looks like -----

  /** The least h with n <= 2^h. */
  function CeilLog2(n: nat): nat
    requires n >= 1
  {
    if n == 1 then 0 else 1 + CeilLog2((n + 1) / 2)
  }

  /** A power of two bounds n exactly from its rounded-up logarithm on. */
  lemma {:induction false} CeilLog2IsLeast(n: nat, h: nat)
    requires n >= 1
    ensures n <= Pow2(h) <==> CeilLog2(n) <= h
  {
    if n > 1 && h > 0 {
      CeilLog2IsLeast((n + 1) / 2, h - 1);
    }
  }

  lemma {:induction false} CeilLog2Monotone(m: nat, n: nat)
    requires 1 <= m <= n
    ensures CeilLog2(m) <= CeilLog2(n)
  {
    if m > 1 {
      CeilLog2Monotone((m + 1) / 2, (n + 1) / 2);
    }
  }

  lemma {:induction false} CeilLog2OfSplit(n: nat)
    requires n >= 2
    ensures CeilLog2(n) == 1 + CeilLog2(SplitPoint(n))
    decreases n
  {
    if n > 2 {
      CeilLog2OfSplit((n + 1) / 2);
      assert (2 * SplitPoint((n + 1) / 2) + 1) / 2 == SplitPoint((n + 1) / 2);
    }
  }

  /** The recursion on leaf hashes. */
  lemma SplitLeaves(hashes: seq<Str>)
    requires |hashes| >= 2
    ensures var k := SplitPoint(|hashes|);
            Split(LeafTrees(hashes)) == Join(Split(LeafTrees(hashes[..k])), Split(LeafTrees(hashes[k..])))
  {
    hide HashSha256;
    var k := SplitPoint(|hashes|);
    assert LeafTrees(hashes)[..k] == LeafTrees(hashes[..k]) && LeafTrees(hashes)[k..] == LeafTrees(hashes[k..]);
  }

  /** What a tree over these leaves has to look like: leaves in order, n - 1 branches, correct hashes, least height. */
  predicate HasShape(t: Tree, hashes: seq<Str>)
    requires |hashes| >= 1
  {
    && t.Leaves() == hashes && t.Branches() == |hashes| - 1 && t.Hashed()
    && t.Height() == CeilLog2(|hashes|)
  }

  lemma JoinParts(l: Tree, r: Tree)
    ensures Join(l, r).Leaves() == l.Leaves() + r.Leaves()
    ensures Join(l, r).Branches() == 1 + l.Branches() + r.Branches()
    ensures l.Hashed() && r.Hashed() ==> Join(l, r).Hashed()
    ensures l.Height() >= r.Height() ==> Join(l, r).Height() == 1 + l.Height()
  {
    hide HashSha256;
  }

  lemma JoinShape(l: Tree, r: Tree, xs: seq<Str>, ys: seq<Str>)
    requires 1 <= |ys| <= |xs| == SplitPoint(|xs| + |ys|)
    requires HasShape(l, xs) && HasShape(r, ys)
    ensures HasShape(Join(l, r), xs + ys)
  {
    hide HashSha256, CeilLog2, SplitPoint, Join, Tree.Leaves, Tree.Branches, Tree.Hashed, Tree.Height;
    JoinParts(l, r);
    CeilLog2OfSplit(|xs| + |ys|);
    CeilLog2Monotone(|ys|, |xs|);
  }

  lemma LeafShape(hash: Str)
    ensures HasShape(Split(LeafTrees([hash])), [hash])
  {
    hide HashSha256;
    assert LeafTrees([hash]) == [Leaf(hash)];
  }

  /** The recursive definition builds a tree of that shape. */
  lemma {:induction false} SplitShape(hashes: seq<Str>)
    requires |hashes| >= 1
    ensures HasShape(Split(LeafTrees(hashes)), hashes)
    decreases |hashes|
  {
    hide *;
    if |hashes| == 1 {
      LeafShape(hashes[0]);
      assert hashes == [hashes[0]];
    } else {
      var k := SplitPoint(|hashes|);
      SplitLeaves(hashes);
      SplitShape(hashes[..k]);
      SplitShape(hashes[k..]);
      JoinShape(Split(LeafTrees(hashes[..k])), Split(LeafTrees(hashes[k..])), hashes[..k], hashes[k..]);
      assert hashes == hashes[..k] + hashes[k..];
    }
  }

  // ----- binding -----

  /** All hashes have the 64 characters of a hash string. */
  predicate HashSized(hashes: seq<Str>) {
    forall i :: 0 <= i < |hashes| ==> |hashes[i]| == 64
  }

  /** Two inputs of the hash, found by walking down where two trees over equally many leaves differ. */
  function Culprit(x: seq<Str>, y: seq<Str>): (Str, Str)
    requires |x| == |y| >= 1
    decreases |x|
  {
    if |x| == 1 then (x[0], y[0])
    else
      var k := SplitPoint(|x|);
      var p, q := Root(x[..k]) + Root(x[k..]), Root(y[..k]) + Root(y[k..]);
      if p != q then (p, q)
      else if x[..k] != y[..k] then Culprit(x[..k], y[..k])
      else Culprit(x[k..], y[k..])
  }

  lemma RootOfSplit(x: seq<Str>)
    requires |x| >= 2
    ensures var k := SplitPoint(|x|);
            Root(x) == HashSha256(Root(x[..k]) + Root(x[k..]))
  {
    hide HashSha256;
    SplitLeaves(x);
  }

  lemma RootSize(x: seq<Str>)
    requires |x| >= 1 && HashSized(x)
    ensures |Root(x)| == 64
  {
    hide HashSha256;
    if |x| > 1 {
      RootOfSplit(x);
    }
  }

  /** One step down: equal roots have equal halves, or what they hash is a collision. */
  lemma EqualRoots(x: seq<Str>, y: seq<Str>)
    requires |x| == |y| >= 2 && HashSized(x) && HashSized(y)
    requires Root(x) == Root(y)
    ensures var k := SplitPoint(|x|);
            var p, q := Root(x[..k]) + Root(x[k..]), Root(y[..k]) + Root(y[k..]);
            if p == q then Root(x[..k]) == Root(y[..k]) && Root(x[k..]) == Root(y[k..]) else Collision(p, q)
  {
    hide HashSha256, Root;
    var k := SplitPoint(|x|);
    RootOfSplit(x);
    RootOfSplit(y);
    RootSize(x[..k]);
    RootSize(y[..k]);
    if Root(x[..k]) + Root(x[k..]) == Root(y[..k]) + Root(y[k..]) {
      SplitConcat(Root(x[..k]), Root(x[k..]), Root(y[..k]), Root(y[k..]));
    }
  }

  /** Equal roots over equally many leaves mean equal leaves, or the culprits are a hash collision. */
  lemma {:induction false} Binding(x: seq<Str>, y: seq<Str>)
    requires |x| == |y| >= 1 && HashSized(x) && HashSized(y)
    requires Root(x) == Root(y)
    ensures x == y || Collision(Culprit(x, y).0, Culprit(x, y).1)
    decreases |x|
  {
    hide HashSha256, Root, Collision;
    if |x| == 1 {
      SingleRoot(x);
      SingleRoot(y);
    } else {
      var k := SplitPoint(|x|);
      EqualRoots(x, y);
      if Root(x[..k]) + Root(x[k..]) == Root(y[..k]) + Root(y[k..]) {
        Binding(x[..k], y[..k]);
        Binding(x[k..], y[k..]);
        assert x == x[..k] + x[k..] && y == y[..k] + y[k..];
      }
    }
  }

  /** Over different numbers of leaves there is no binding: two leaves, and the one hash above them. */
  lemma LengthsMatter(x: Str, y: Str)
    ensures Root([x, y]) == Root([HashSha256(x + y)])
  {
    hide HashSha256, Root;
    RootOfSplit([x, y]);
    SingleRoot([x]);
    SingleRoot([y]);
    SingleRoot([HashSha256(x + y)]);
    assert [x, y][..1] == [x] && [x, y][1..] == [y];
  }

  lemma SingleRoot(x: seq<Str>)
    requires |x| == 1
    ensures x == [Root(x)]
  {
  }

  lemma SplitConcat(a: Str, b: Str, c: Str, d: Str)
    requires |a| == |c| && a + b == c + d
    ensures a == c && b == d
  {
    assert (a + b)[..|a|] == a && (c + d)[..|c|] == c;
    assert (a + b)[|a|..] == b && (c + d)[|c|..] == d;
  }
}

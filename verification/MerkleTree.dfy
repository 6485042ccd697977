/** The `MerkleTree` constructor: nodes on the heap, built level by level. */
module MerkleTree {
  import opened Bytes
  import opened HashText
  import opened MerkleSpec

  class Node {
    var hash: Str
    var left: Node?
    var right: Node?

    constructor (data: Str)
      ensures hash == data && left == null && right == null
    {
      hash, left, right := data, null, null;
    }
  }

  /** Which nodes make up a tree, and how they hang together. */
  datatype Shape =
    | LeafAt(node: Node)
    | BranchAt(node: Node, below: Shape, beside: Shape)
  {
    ghost function Nodes(): set<Node> {
      if LeafAt? then {node} else {node} + below.Nodes() + beside.Nodes()
    }

    ghost function BranchNodes(): set<Node> {
      if LeafAt? then {} else {node} + below.BranchNodes() + beside.BranchNodes()
    }

    /** The leaves from left to right. */
    ghost function LeafNodes(): seq<Node> {
      if LeafAt? then [node] else below.LeafNodes() + beside.LeafNodes()
    }

    /** The pointers and hashes on the heap are exactly those of the tree `t`. */
    ghost predicate Holds(t: Tree)
      reads Nodes()
    {
      && node.hash == t.Hash()
      && (LeafAt? <==> t.Leaf?)
      && (LeafAt? ==> node.left == null && node.right == null)
      && (BranchAt? ==>
          && node.left == below.node && node.right == beside.node
          && below.Holds(t.left) && beside.Holds(t.right))
    }
  }

  ghost function AllBranchNodes(shapes: seq<Shape>): set<Node> {
    if shapes == [] then {} else shapes[0].BranchNodes() + AllBranchNodes(shapes[1..])
  }

  ghost function AllLeafNodes(shapes: seq<Shape>): seq<Node> {
    if shapes == [] then [] else shapes[0].LeafNodes() + AllLeafNodes(shapes[1..])
  }

  lemma {:induction false} AllNodesConcat(x: seq<Shape>, y: seq<Shape>)
    ensures AllBranchNodes(x + y) == AllBranchNodes(x) + AllBranchNodes(y)
    ensures AllLeafNodes(x + y) == AllLeafNodes(x) + AllLeafNodes(y)
    decreases |x|
  {
    hide Shape.BranchNodes, Shape.LeafNodes;
    if x == [] {
      assert x + y == y;
    } else {
      assert (x + y)[1..] == x[1..] + y;
      AllNodesConcat(x[1..], y);
    }
  }

  /**
   * Every node made, and every leaf in order, is below a finished node of the level or below one still to be
   * paired.
   */
  ghost predicate Accounted(made: set<Node>, leaves: seq<Node>, done: seq<Shape>, todo: seq<Shape>) {
    && made == AllBranchNodes(done) + AllBranchNodes(todo)
    && leaves == AllLeafNodes(done) + AllLeafNodes(todo)
  }

  /** The shapes from place l on, none if that is past the end. */
  ghost function From(shapes: seq<Shape>, l: nat): seq<Shape> {
    if l < |shapes| then shapes[l..] else []
  }

  lemma NoneDone(made: set<Node>, leaves: seq<Node>, shapes: seq<Shape>)
    ensures Accounted(made, leaves, [], From(shapes, 0)) <==> Accounted(made, leaves, shapes, [])
    ensures Accounted(made, leaves, shapes, []) <==> made == AllBranchNodes(shapes) && leaves == AllLeafNodes(shapes)
    ensures forall l :: l >= |shapes| ==> From(shapes, l) == []
  {
    assert From(shapes, 0) == shapes;
    var none: set<Node>, nil: seq<Node> := AllBranchNodes([]), AllLeafNodes([]);
    assert none + AllBranchNodes(shapes) == AllBranchNodes(shapes) == AllBranchNodes(shapes) + none;
    assert nil + AllLeafNodes(shapes) == AllLeafNodes(shapes) == AllLeafNodes(shapes) + nil;
  }

  lemma OneShape(shape: Shape)
    ensures AllBranchNodes([shape]) == shape.BranchNodes() && AllLeafNodes([shape]) == shape.LeafNodes()
  {
    hide Shape.BranchNodes, Shape.LeafNodes;
    assert [shape][1..] == [];
    assert shape.LeafNodes() + [] == shape.LeafNodes();
  }

  lemma TwoShapes(shapes: seq<Shape>, l: nat)
    requires l + 1 < |shapes|
    ensures AllBranchNodes(From(shapes, l))
         == shapes[l].BranchNodes() + shapes[l + 1].BranchNodes() + AllBranchNodes(From(shapes, l + 2))
    ensures AllLeafNodes(From(shapes, l))
         == shapes[l].LeafNodes() + shapes[l + 1].LeafNodes() + AllLeafNodes(From(shapes, l + 2))
  {
    hide Shape.BranchNodes, Shape.LeafNodes, AllBranchNodes, AllLeafNodes;
    AllNodesConcat(shapes[l..l + 2], From(shapes, l + 2));
    AllNodesConcat([shapes[l]], [shapes[l + 1]]);
    OneShape(shapes[l]);
    OneShape(shapes[l + 1]);
    assert [shapes[l]] + [shapes[l + 1]] == shapes[l..l + 2];
    assert shapes[l..l + 2] + From(shapes, l + 2) == From(shapes, l);
  }

  lemma PairAccounted(made: set<Node>, leaves: seq<Node>, done: seq<Shape>, shapes: seq<Shape>, l: nat,
                      node: Node, shape: Shape)
    requires Accounted(made, leaves, done, From(shapes, l)) && l + 1 < |shapes|
    requires shape.BranchNodes() == {node} + shapes[l].BranchNodes() + shapes[l + 1].BranchNodes()
    requires shape.LeafNodes() == shapes[l].LeafNodes() + shapes[l + 1].LeafNodes()
    ensures Accounted(made + {node}, leaves, done + [shape], From(shapes, l + 2))
  {
    hide Shape.BranchNodes, Shape.LeafNodes, AllBranchNodes, AllLeafNodes, From;
    AllNodesConcat(done, [shape]);
    OneShape(shape);
    TwoShapes(shapes, l);
    var rest := AllLeafNodes(From(shapes, l + 2));
    assert AllLeafNodes(done) + (shape.LeafNodes() + rest) == AllLeafNodes(done) + shape.LeafNodes() + rest;
  }

  lemma PromoteAccounted(made: set<Node>, leaves: seq<Node>, done: seq<Shape>, shapes: seq<Shape>)
    requires |shapes| > 0
    requires var l := |shapes| - 1; Accounted(made, leaves, done, From(shapes, l))
    ensures var l := |shapes| - 1; Accounted(made, leaves, done + [shapes[l]], From(shapes, l + 2))
  {
    hide Shape.BranchNodes, Shape.LeafNodes;
    var l := |shapes| - 1;
    AllNodesConcat(done, [shapes[l]]);
    assert From(shapes, l) == [shapes[l]];
    assert leaves + [] == leaves;
  }

  lemma {:induction false} LeavesAlone(leaves: seq<Node>, shapes: seq<Shape>)
    requires |shapes| == |leaves| && forall i :: 0 <= i < |shapes| ==> shapes[i] == LeafAt(leaves[i])
    ensures AllBranchNodes(shapes) == {} && AllLeafNodes(shapes) == leaves
  {
    if shapes != [] {
      LeavesAlone(leaves[1..], shapes[1..]);
      assert leaves == [leaves[0]] + leaves[1..];
    }
  }

  /** A level of the construction: each node is the root of the tree at the same place. */
  ghost predicate Level(nodes: seq<Node>, shapes: seq<Shape>, trees: seq<Tree>,
                        given: set<Node>, made: set<Node>)
    reads given, made
  {
    && |nodes| == |shapes| == |trees|
    && forall i :: 0 <= i < |nodes| ==>
        && shapes[i].node == nodes[i]
        && shapes[i].Nodes() <= given + made
        && shapes[i].BranchNodes() <= made
        && shapes[i].Holds(trees[i])
  }

  /** Allocates the parent of two nodes and points it at them. */
  method Parent(l: Node, r: Node, ghost ls: Shape, ghost rs: Shape, ghost lt: Tree, ghost rt: Tree,
                ghost seen: set<Node>)
    returns (node: Node, ghost shape: Shape)
    requires ls.node == l && rs.node == r && ls.Holds(lt) && rs.Holds(rt)
    requires ls.Nodes() <= seen && rs.Nodes() <= seen
    ensures fresh(node) && shape == BranchAt(node, ls, rs) && shape.Holds(Join(lt, rt))
    ensures shape.Nodes() == {node} + ls.Nodes() + rs.Nodes()
    ensures shape.BranchNodes() == {node} + ls.BranchNodes() + rs.BranchNodes()
    ensures shape.LeafNodes() == ls.LeafNodes() + rs.LeafNodes()
  {
    hide HashSha256;
    node := new Node(HashSha256(l.hash + r.hash));
    assert node !in seen;
    node.left := l;
    node.right := r;
    shape := BranchAt(node, ls, rs);
  }

  /** The trees of the next level, one by one. */
  lemma {:induction false} PairUpAt(ts: seq<Tree>, n: nat)
    requires 2 * n < |ts|
    ensures PairUp(ts)[n] == if 2 * n + 1 < |ts| then Join(ts[2 * n], ts[2 * n + 1]) else ts[2 * n]
    decreases n
  {
    hide HashSha256;
    if n != 0 {
      PairUpAt(ts[2..], n - 1);
    }
  }

  lemma Append(nodes: seq<Node>, shapes: seq<Shape>, trees: seq<Tree>, given: set<Node>, made: set<Node>,
               node: Node, shape: Shape, tree: Tree, made': set<Node>, trees': seq<Tree>)
    requires Level(nodes, shapes, trees, given, made) && made <= made' && trees' == trees + [tree]
    requires shape.node == node && shape.Nodes() <= given + made' && shape.BranchNodes() <= made' && shape.Holds(tree)
    ensures Level(nodes + [node], shapes + [shape], trees', given, made')
  {
  }

  lemma LevelSizes(nodes: seq<Node>, shapes: seq<Shape>, trees: seq<Tree>, given: set<Node>, made: set<Node>)
    requires Level(nodes, shapes, trees, given, made)
    ensures |nodes| == |shapes| == |trees|
  {
  }

  lemma EmptyLevel(given: set<Node>, made: set<Node>)
    ensures Level([], [], [], given, made)
  {
  }

  lemma LevelAt(nodes: seq<Node>, shapes: seq<Shape>, trees: seq<Tree>, given: set<Node>, made: set<Node>, i: nat)
    requires Level(nodes, shapes, trees, given, made) && i < |nodes|
    ensures |nodes| == |shapes| == |trees|
    ensures shapes[i].node == nodes[i] && shapes[i].Holds(trees[i])
    ensures shapes[i].Nodes() <= given + made && shapes[i].BranchNodes() <= made
  {
  }

  /** Adds the parent of blocks 2n and 2n + 1 as node n of the next level. */
  method AddParent(blocks: seq<Node>, n: nat, nodes: seq<Node>, ghost shapes: seq<Shape>, ghost trees: seq<Tree>,
                   ghost shapes': seq<Shape>, ghost given: set<Node>, ghost made: set<Node>, ghost made': set<Node>)
    returns (node: Node, ghost shape: Shape)
    requires 2 * n + 1 < |blocks| == |shapes| == |trees|
    requires Level(blocks, shapes, trees, given, made)
    requires Level(nodes, shapes', PairUp(trees)[..n], given, made') && made <= made'
    ensures fresh(node)
    ensures shape.BranchNodes() == {node} + shapes[2 * n].BranchNodes() + shapes[2 * n + 1].BranchNodes()
    ensures shape.LeafNodes() == shapes[2 * n].LeafNodes() + shapes[2 * n + 1].LeafNodes()
    ensures Level(blocks, shapes, trees, given, made)
    ensures Level(nodes + [node], shapes' + [shape], PairUp(trees)[..n + 1], given, made' + {node})
  {
    hide HashSha256, PairUp, Level, Join, Shape.Nodes, Shape.BranchNodes, Shape.LeafNodes, Shape.Holds;
    var l := 2 * n;
    LevelAt(blocks, shapes, trees, given, made, l);
    LevelAt(blocks, shapes, trees, given, made, l + 1);
    node, shape := Parent(blocks[l], blocks[l + 1], shapes[l], shapes[l + 1], trees[l], trees[l + 1], given + made);
    PairUpAt(trees, n);
    ghost var tree, next := Join(trees[l], trees[l + 1]), PairUp(trees);
    Append(nodes, shapes', next[..n], given, made', node, shape, tree, made' + {node}, next[..n + 1]);
  }

  /** An odd last block is itself the last node of the next level. */
  lemma Promote(blocks: seq<Node>, n: nat, nodes: seq<Node>, shapes: seq<Shape>, trees: seq<Tree>,
                shapes': seq<Shape>, given: set<Node>, made: set<Node>, made': set<Node>)
    requires 2 * n + 1 == |blocks| == |shapes| == |trees|
    requires Level(blocks, shapes, trees, given, made)
    requires Level(nodes, shapes', PairUp(trees)[..n], given, made') && made <= made'
    ensures Level(nodes + [blocks[2 * n]], shapes' + [shapes[2 * n]], PairUp(trees)[..n + 1], given, made')
  {
    hide HashSha256, PairUp, Level, Join, Shape.Nodes, Shape.BranchNodes, Shape.LeafNodes, Shape.Holds;
    var l, next := 2 * n, PairUp(trees);
    LevelAt(blocks, shapes, trees, given, made, l);
    PairUpAt(trees, n);
    Append(nodes, shapes', next[..n], given, made', blocks[l], shapes[l], trees[l], made', next[..n + 1]);
  }

  /**
   * One round of the outer loop: pairs neighbours under new nodes and promotes an odd last node. Every node
   * ever made is below some node of the level, each round makes one node for each it takes away, and the leaves
   * stay in order.
   */
  method NextLevel(blocks: seq<Node>, ghost shapes: seq<Shape>, ghost trees: seq<Tree>,
                   ghost given: set<Node>, ghost made: set<Node>)
    returns (nodes: seq<Node>, ghost shapes': seq<Shape>, ghost made': set<Node>)
    requires Level(blocks, shapes, trees, given, made) && made == AllBranchNodes(shapes)
    ensures Level(nodes, shapes', PairUp(trees), given, made') && made <= made' && fresh(made' - made)
    ensures made' == AllBranchNodes(shapes') && |made'| - |made| == |blocks| - |nodes|
    ensures AllLeafNodes(shapes') == AllLeafNodes(shapes)
  {
    hide HashSha256, PairUp, Level, AllBranchNodes, AllLeafNodes, Accounted, From, Join;
    hide Shape.Nodes, Shape.BranchNodes, Shape.LeafNodes, Shape.Holds;
    ghost var leaves := AllLeafNodes(shapes);
    LevelSizes(blocks, shapes, trees, given, made);
    EmptyLevel(given, made);
    NoneDone(made, leaves, shapes);
    nodes, shapes', made' := [], [], made;
    ghost var next := PairUp(trees);
    var l, n := 0, 0;
    while l < |blocks|
      invariant n == |nodes| && l == 2 * n && n <= |next|
      invariant Level(blocks, shapes, trees, given, made)
      invariant Level(nodes, shapes', next[..n], given, made')
      invariant made <= made' && fresh(made' - made)
      invariant Accounted(made', leaves, shapes', From(shapes, l))
      invariant |made'| - |made| + n == if l < |blocks| then l else |blocks|
    {
      if l != |blocks| - 1 {
        var node;
        ghost var shape;
        node, shape := AddParent(blocks, n, nodes, shapes, trees, shapes', given, made, made');
        PairAccounted(made', leaves, shapes', shapes, l, node, shape);
        nodes, shapes', made' := nodes + [node], shapes' + [shape], made' + {node};
      } else {
        Promote(blocks, n, nodes, shapes, trees, shapes', given, made, made');
        PromoteAccounted(made', leaves, shapes', shapes);
        nodes, shapes' := nodes + [blocks[l]], shapes' + [shapes[l]];
      }
      l := l + 2;
      n := n + 1;
    }
    assert next[..n] == next;
    NoneDone(made', leaves, shapes');
  }

  /** The hashes of some nodes, in order. */
  ghost function Hashes(nodes: seq<Node>): (s: seq<Str>)
    reads nodes
    ensures |s| == |nodes|
  {
    seq(|nodes|, i requires 0 <= i < |nodes| reads nodes => nodes[i].hash)
  }

  lemma LeafLevel(leaves: seq<Node>, shapes: seq<Shape>, given: set<Node>)
    requires |shapes| == |leaves| && forall i :: 0 <= i < |leaves| ==> shapes[i] == LeafAt(leaves[i])
    requires forall i :: 0 <= i < |leaves| ==> leaves[i].left == null && leaves[i].right == null && leaves[i] in given
    ensures Level(leaves, shapes, LeafTrees(Hashes(leaves)), given, {})
  {
  }

  lemma BottomUpStep(ts: seq<Tree>)
    requires |ts| >= 1
    ensures BottomUp(ts) == if |ts| == 1 then ts[0] else BottomUp(PairUp(ts))
  {
  }

  lemma ShapeOfAll(hashes: seq<Str>)
    requires |hashes| >= 1
    ensures var t := Split(LeafTrees(hashes)); t.Hashed() && t.Height() == CeilLog2(|hashes|)
  {
    hide HashSha256, Split, LeafTrees, Tree.Hashed, Tree.Height;
    SplitShape(hashes);
  }

  // ----- the finished tree, through the fields of its nodes -----

  /** A node with two children, and the hash of theirs. */
  ghost predicate OverChildren(n: Node)
    reads n, n.left, n.right
  {
    n.left != null && n.right != null && n.hash == HashSha256(n.left.hash + n.right.hash)
  }

  /**
   * The nodes without children that a walk from n meets, going left before right and down to at most the given
   * depth. The walk stays among `nodes`.
   */
  ghost function Walk(n: Node, depth: nat, nodes: set<Node>): seq<Node>
    requires n in nodes
    reads nodes
  {
    if n.left == null && n.right == null then [n]
    else if depth == 0 then []
    else
      (if n.left != null && n.left in nodes then Walk(n.left, depth - 1, nodes) else []) +
      (if n.right != null && n.right in nodes then Walk(n.right, depth - 1, nodes) else [])
  }

  /** What holds of the shape of a tree can be read off the fields. */
  lemma {:induction false} FieldsTell(shape: Shape, t: Tree, depth: nat, nodes: set<Node>)
    requires shape.Holds(t) && t.Hashed() && t.Height() <= depth && shape.Nodes() <= nodes
    ensures shape.node in shape.Nodes()
    ensures forall n :: n in shape.BranchNodes() ==> OverChildren(n)
    ensures Walk(shape.node, depth, nodes) == shape.LeafNodes()
    decreases shape
  {
    hide HashSha256;
    if shape.BranchAt? {
      FieldsTell(shape.below, t.left, depth - 1, nodes);
      FieldsTell(shape.beside, t.right, depth - 1, nodes);
    }
  }

  /**
   * Builds the tree over the given nodes, which must be leaves: the tree of the recursive definition, with
   * these very nodes as its leaves and exactly one new node for each leaf but one. The ghost result shows how
   * the nodes below the root hang together; what it says is then said through the fields alone: every new node has
   * two children and the hash of their hashes, and a walk from the root, left before right, meets the leaves in order.
   */
  method Build(leaves: seq<Node>) returns (root: Node, ghost shape: Shape)
    requires |leaves| >= 1
    requires forall i :: 0 <= i < |leaves| ==> leaves[i].left == null && leaves[i].right == null
    ensures shape.node == root && shape.Holds(Split(LeafTrees(Hashes(leaves))))
    ensures shape.LeafNodes() == leaves
    ensures fresh(shape.BranchNodes()) && |shape.BranchNodes()| == |leaves| - 1
    ensures forall n :: n in shape.BranchNodes() ==> OverChildren(n)
    ensures root in shape.Nodes() && Walk(root, CeilLog2(|leaves|), shape.Nodes()) == leaves
  {
    hide HashSha256, Split, PairUp, BottomUp, Level, AllBranchNodes, AllLeafNodes, LeafTrees, Hashes;
    hide Shape.Nodes, Shape.BranchNodes, Shape.LeafNodes, Shape.Holds;
    ghost var start := LeafTrees(Hashes(leaves));
    ghost var trees := start;
    ghost var given: set<Node>, made: set<Node> := set x | x in leaves, {};
    ghost var shapes := seq(|leaves|, i requires 0 <= i < |leaves| => LeafAt(leaves[i]));
    LeavesAlone(leaves, shapes);
    LeafLevel(leaves, shapes, given);
    var blocks := leaves;
    while |blocks| != 1
      invariant |blocks| >= 1
      invariant Level(blocks, shapes, trees, given, made) && fresh(made)
      invariant made == AllBranchNodes(shapes) && |made| == |leaves| - |blocks|
      invariant AllLeafNodes(shapes) == leaves
      invariant |trees| == |blocks| && BottomUp(trees) == BottomUp(start)
      decreases |blocks|
    {
      var nodes;
      BottomUpStep(trees);
      nodes, shapes, made := NextLevel(blocks, shapes, trees, given, made);
      trees := PairUp(trees);
      blocks := nodes;
      LevelSizes(blocks, shapes, trees, given, made);
    }
    LevelAt(blocks, shapes, trees, given, made, 0);
    root, shape := blocks[0], shapes[0];
    OneShape(shape);
    assert shapes == [shape];
    BottomUpStep(trees);
    BottomUpIsSplit(start);
    ShapeOfAll(Hashes(leaves));
    FieldsTell(shape, Split(start), CeilLog2(|leaves|), shape.Nodes());
  }
}

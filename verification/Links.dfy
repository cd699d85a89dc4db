/**
  How a shape is spelled out by the two index-linked maps of the tree.

  Internal nodes and leaves live in separate maps. A tree index below the partition names an internal
  node; a leaf with leaf index `i` has tree index `MAX_INDEX - i`, above the partition.
 */
module Links {
  import opened Bits
  import opened Shapes

  datatype InternalNode = InternalNode(mask: nat, parent: nat, left: nat, right: nat)

  datatype LeafNode<V> = LeafNode(parent: nat, key: Index, value: V)

  type NodeMap = map<nat, InternalNode>
  type LeafMap<V> = map<nat, LeafNode<V>>

  /** Tree index of the root of `s`. */
  ghost function IndexOf(s: Shape): int {
    match s
    case Tip(i, _) => MAX_INDEX - i
    case Fork(n, _, _, _) => n
  }

  ghost predicate Linked<V>(s: Shape, parent: nat, nodes: NodeMap, leaves: LeafMap<V>) {
    match s
    case Tip(i, k) =>
      i < CAPACITY && i in leaves && leaves[i].key == k && leaves[i].parent == parent
    case Fork(n, b, l, r) =>
      && n < PARTITION_INDEX && n in nodes
      && nodes[n].mask == Pow2(b) && nodes[n].parent == parent
      && nodes[n].left == IndexOf(l) && nodes[n].right == IndexOf(r)
      && Linked(l, n, nodes, leaves) && Linked(r, n, nodes, leaves)
  }

  /** Tree index of the node right above the hole. */
  ghost function ParentOf(c: Context): nat {
    match c
    case Hole => PARTITION_INDEX
    case InLeft(n, _, _, _) => n
    case InRight(n, _, _, _) => n
  }

  /** The maps spell out `c` around a subtree whose tree index is `idx`. */
  ghost predicate LinkedAround<V>(c: Context, idx: int, nodes: NodeMap, leaves: LeafMap<V>) {
    match c
    case Hole => true
    case InLeft(n, b, up, r) =>
      && n < PARTITION_INDEX && n in nodes
      && nodes[n].mask == Pow2(b) && nodes[n].parent == ParentOf(up)
      && nodes[n].left == idx && nodes[n].right == IndexOf(r)
      && Linked(r, n, nodes, leaves) && LinkedAround(up, n, nodes, leaves)
    case InRight(n, b, l, up) =>
      && n < PARTITION_INDEX && n in nodes
      && nodes[n].mask == Pow2(b) && nodes[n].parent == ParentOf(up)
      && nodes[n].left == IndexOf(l) && nodes[n].right == idx
      && Linked(l, n, nodes, leaves) && LinkedAround(up, n, nodes, leaves)
  }

  ghost predicate SameNodes(ns: set<nat>, nodes: NodeMap, nodes': NodeMap) {
    forall n | n in ns && n in nodes :: n in nodes' && nodes'[n] == nodes[n]
  }

  /** Key and parent unchanged; the value may differ. */
  ghost predicate SameLeaves<V>(ls: set<nat>, leaves: LeafMap<V>, leaves': LeafMap<V>) {
    forall i | i in ls && i in leaves ::
      i in leaves' && leaves'[i].key == leaves[i].key && leaves'[i].parent == leaves[i].parent
  }

  lemma {:induction false} PlugLinked<V>(c: Context, t: Shape, nodes: NodeMap, leaves: LeafMap<V>)
    ensures Linked(Plug(c, t), PARTITION_INDEX, nodes, leaves)
       <==> Linked(t, ParentOf(c), nodes, leaves) && LinkedAround(c, IndexOf(t), nodes, leaves)
    ensures IndexOf(Plug(c, t)) == match c case Hole => IndexOf(t) case _ => IndexOf(Plug(c, Tip(0, 0)))
    decreases c
  {
    match c
    case Hole =>
    case InLeft(n, b, up, r) =>
      PlugLinked(up, Fork(n, b, t, r), nodes, leaves);
      PlugLinked(up, Fork(n, b, Tip(0, 0), r), nodes, leaves);
    case InRight(n, b, l, up) =>
      PlugLinked(up, Fork(n, b, l, t), nodes, leaves);
      PlugLinked(up, Fork(n, b, l, Tip(0, 0)), nodes, leaves);
  }

  lemma {:induction false} FrameLinked<V>(s: Shape, parent: nat,
      nodes: NodeMap, leaves: LeafMap<V>, nodes': NodeMap, leaves': LeafMap<V>)
    requires Linked(s, parent, nodes, leaves)
    requires SameNodes(Nodes(s), nodes, nodes') && SameLeaves(Leaves(s), leaves, leaves')
    ensures Linked(s, parent, nodes', leaves')
  {
    match s
    case Tip(_, _) =>
    case Fork(n, _, l, r) =>
      FrameLinked(l, n, nodes, leaves, nodes', leaves');
      FrameLinked(r, n, nodes, leaves, nodes', leaves');
  }

  lemma {:induction false} FrameAround<V>(c: Context, idx: int,
      nodes: NodeMap, leaves: LeafMap<V>, nodes': NodeMap, leaves': LeafMap<V>)
    requires LinkedAround(c, idx, nodes, leaves)
    requires SameNodes(OuterNodes(c), nodes, nodes') && SameLeaves(OuterLeaves(c), leaves, leaves')
    ensures LinkedAround(c, idx, nodes', leaves')
  {
    match c
    case Hole =>
    case InLeft(n, _, up, r) =>
      FrameLinked(r, n, nodes, leaves, nodes', leaves');
      FrameAround(up, n, nodes, leaves, nodes', leaves');
    case InRight(n, _, l, up) =>
      FrameLinked(l, n, nodes, leaves, nodes', leaves');
      FrameAround(up, n, nodes, leaves, nodes', leaves');
  }

  /** The subtree at the hole gets a new parent; only its root's parent pointer changes. */
  lemma Reparent<V>(t: Shape, parent: nat, parent': nat,
      nodes: NodeMap, leaves: LeafMap<V>, nodes': NodeMap, leaves': LeafMap<V>)
    requires Linked(t, parent, nodes, leaves) && Distinct(t)
    requires t.Tip? ==> t.leaf in leaves' && leaves'[t.leaf].key == t.key && leaves'[t.leaf].parent == parent'
    requires t.Fork? ==> t.node in nodes' && nodes'[t.node] == nodes[t.node].(parent := parent')
    requires t.Fork? ==> SameNodes(Nodes(t) - {t.node}, nodes, nodes') && SameLeaves(Leaves(t), leaves, leaves')
    ensures Linked(t, parent', nodes', leaves')
  {
    match t
    case Tip(_, _) =>
    case Fork(n, _, l, r) =>
      FrameLinked(l, n, nodes, leaves, nodes', leaves');
      FrameLinked(r, n, nodes, leaves, nodes', leaves');
  }

  /** Replacing one child pointer of internal node `parent`. */
  function SetChild(nodes: NodeMap, parent: nat, child: nat, isLeft: bool): NodeMap
    requires parent in nodes
  {
    nodes[parent := if isLeft then nodes[parent].(left := child) else nodes[parent].(right := child)]
  }

  /** Internal nodes sit below the partition; leaves, seen as tree indices, above it. */
  lemma {:induction false} LinkedBounds<V>(s: Shape, parent: nat, nodes: NodeMap, leaves: LeafMap<V>)
    requires Linked(s, parent, nodes, leaves)
    ensures forall n | n in Nodes(s) :: n < PARTITION_INDEX && n in nodes
    ensures forall i | i in Leaves(s) :: MAX_INDEX - i > PARTITION_INDEX && i in leaves
  {
    match s
    case Tip(_, _) =>
    case Fork(n, _, l, r) => LinkedBounds(l, n, nodes, leaves); LinkedBounds(r, n, nodes, leaves);
  }

  /** The child pointer at the hole changes; everything else outside the hole stays. */
  lemma RelinkAround<V>(c: Context, idx: int, idx': nat,
      nodes: NodeMap, leaves: LeafMap<V>, nodes': NodeMap, leaves': LeafMap<V>)
    requires LinkedAround(c, idx, nodes, leaves)
    requires c != Hole ==> ParentOf(c) in nodes && ParentOf(c) in nodes'
    requires c != Hole ==> nodes'[ParentOf(c)] == SetChild(nodes, ParentOf(c), idx', c.InLeft?)[ParentOf(c)]
    requires SameNodes(OuterNodes(c) - {ParentOf(c)}, nodes, nodes')
    requires SameLeaves(OuterLeaves(c), leaves, leaves')
    requires c != Hole ==> ParentOf(c) !in OuterNodes(c.up)
    requires c.InLeft? ==> c.node !in Nodes(c.right)
    requires c.InRight? ==> c.node !in Nodes(c.left)
    ensures LinkedAround(c, idx', nodes', leaves')
  {
    match c
    case Hole =>
    case InLeft(n, _, up, r) =>
      FrameLinked(r, n, nodes, leaves, nodes', leaves');
      FrameAround(up, n, nodes, leaves, nodes', leaves');
    case InRight(n, _, l, up) =>
      FrameLinked(l, n, nodes, leaves, nodes', leaves');
      FrameAround(up, n, nodes, leaves, nodes', leaves');
  }

  /** The two children of a node have different tree indices. */
  lemma ChildrenDiffer<V>(l: Shape, r: Shape, p: nat, nodes: NodeMap, leaves: LeafMap<V>)
    requires Linked(l, p, nodes, leaves) && Linked(r, p, nodes, leaves)
    requires Nodes(l) !! Nodes(r) && Leaves(l) !! Leaves(r)
    ensures IndexOf(l) != IndexOf(r)
  {
    assert l.Tip? ==> l.leaf in Leaves(l);
    assert r.Tip? ==> r.leaf in Leaves(r);
    assert l.Fork? ==> l.node in Nodes(l);
    assert r.Fork? ==> r.node in Nodes(r);
  }

  /** Every leaf is where following the bits of its key leads. */
  lemma {:induction false} LeafByKey<V>(s: Shape, p: nat, i: nat, nodes: NodeMap, leaves: LeafMap<V>)
    requires Linked(s, p, nodes, leaves) && Trie(s) && i in Leaves(s)
    ensures i in leaves && leaves[i].key in Keys(s) && Closest(s, leaves[i].key) == Tip(i, leaves[i].key)
  {
    match s
    case Tip(_, _) =>
    case Fork(n, b, l, r) =>
      var h := Shr(FirstKey(l), b + 1);
      if i in Leaves(l) {
        LeafByKey(l, n, i, nodes, leaves);
        AgreeOnKey(l, b, 2 * h, leaves[i].key);
      } else {
        LeafByKey(r, n, i, nodes, leaves);
        AgreeOnKey(r, b, 2 * h + 1, leaves[i].key);
      }
  }

  lemma {:induction false} ClosestLinked<V>(s: Shape, p: nat, key: nat, nodes: NodeMap, leaves: LeafMap<V>)
    requires Linked(s, p, nodes, leaves)
    ensures Closest(s, key).key in Keys(s) && Closest(s, key).leaf in Leaves(s)
    ensures Closest(s, key).leaf in leaves && leaves[Closest(s, key).leaf].key == Closest(s, key).key
    ensures Closest(s, key).leaf < CAPACITY
  {
    match s
    case Tip(_, _) =>
    case Fork(n, _, l, r) =>
      ClosestLinked(l, n, key, nodes, leaves);
      ClosestLinked(r, n, key, nodes, leaves);
  }

  /** `update_ref`: hang tree index `child` under `parent`, setting both directions of the link. */
  function Relink<V>(nodes: NodeMap, leaves: LeafMap<V>, parent: nat, child: nat, isLeft: bool)
    : (NodeMap, LeafMap<V>)
    requires parent in nodes
    requires if child > PARTITION_INDEX then child <= MAX_INDEX && MAX_INDEX - child in leaves else child in nodes
  {
    var nodes' := SetChild(nodes, parent, child, isLeft);
    if child > PARTITION_INDEX then
      var i := MAX_INDEX - child;
      (nodes', leaves[i := leaves[i].(parent := parent)])
    else
      (nodes'[child := nodes'[child].(parent := parent)], leaves)
  }

  /** Same leaves, holding the same keys and values; parents may differ. */
  ghost predicate SameEntries<V>(leaves: LeafMap<V>, leaves': LeafMap<V>) {
    && leaves.Keys == leaves'.Keys
    && forall i | i in leaves :: leaves'[i].key == leaves[i].key && leaves'[i].value == leaves[i].value
  }

  /** The pieces of a linked tree around the hole. */
  lemma AtHole<V>(c: Context, t: Shape, nodes: NodeMap, leaves: LeafMap<V>)
    requires Linked(Plug(c, t), PARTITION_INDEX, nodes, leaves) && Distinct(Plug(c, t))
    ensures Linked(t, ParentOf(c), nodes, leaves) && LinkedAround(c, IndexOf(t), nodes, leaves)
    ensures Distinct(t) && OuterNodes(c) !! Nodes(t) && OuterLeaves(c) !! Leaves(t)
    ensures c == Hole <==> ParentOf(c) == PARTITION_INDEX
    ensures c != Hole ==> ParentOf(c) in nodes && ParentOf(c) in OuterNodes(c) && ParentOf(c) !in OuterNodes(c.up)
    ensures c != Hole ==> (nodes[ParentOf(c)].left == IndexOf(t) <==> c.InLeft?)
    ensures c.InLeft? ==> c.node !in Nodes(c.right)
    ensures c.InRight? ==> c.node !in Nodes(c.left)
  {
    PlugLinked(c, t, nodes, leaves);
    PlugDistinct(c, t);
    match c
    case Hole =>
    case InLeft(n, b, up, r) =>
      PlugDistinct(up, Fork(n, b, t, r));
    case InRight(n, b, l, up) =>
      PlugDistinct(up, Fork(n, b, l, t));
      ChildrenDiffer(l, t, n, nodes, leaves);
  }
}

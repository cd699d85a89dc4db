/**
  Splicing a leaf into a crit-bit tree and taking one out: what the pointer updates of the source do to the
  tree the maps spell out.
 */
module Splices {
  import opened Bits
  import opened Links
  import opened Shapes

  /** The two maps and the root spell out exactly the crit-bit tree `s`. */
  ghost predicate Represents<V>(s: Shape, root: nat, nodes: NodeMap, leaves: LeafMap<V>) {
    && root == IndexOf(s)
    && Linked(s, PARTITION_INDEX, nodes, leaves)
    && Trie(s) && Distinct(s)
    && Nodes(s) == nodes.Keys && Leaves(s) == leaves.Keys
  }

  lemma OneLeaf<V>(key: Index, leaves: LeafMap<V>)
    requires leaves.Keys == {0} && leaves[0].key == key && leaves[0].parent == PARTITION_INDEX
    ensures Represents(Tip(0, key), MAX_INDEX, map[], leaves) && Keys(Tip(0, key)) == {key}
  {
  }

  lemma RootIsLive<V>(s: Shape, root: nat, nodes: NodeMap, leaves: LeafMap<V>)
    requires Represents(s, root, nodes, leaves)
    ensures root != PARTITION_INDEX
  {
  }

  // ---------- walking by the bits of a key ----------

  /** The context in which `Closest(t, key)` sits inside `Plug(c, t)`. */
  ghost function Descend(c: Context, t: Shape, key: nat): Context
    decreases t
  {
    match t
    case Tip(_, _) => c
    case Fork(n, b, l, r) =>
      if Bit(key, b) == 0 then Descend(InLeft(n, b, c, r), l, key) else Descend(InRight(n, b, l, c), r, key)
  }

  lemma {:induction false} DescendPlugs(c: Context, t: Shape, key: nat)
    ensures Plug(Descend(c, t, key), Closest(t, key)) == Plug(c, t)
    decreases t
  {
    match t
    case Tip(_, _) =>
    case Fork(n, b, l, r) =>
      DescendPlugs(InLeft(n, b, c, r), l, key);
      DescendPlugs(InRight(n, b, l, c), r, key);
  }

  /** At the root of `t`, the closest key has the same bit as the key looked for. */
  lemma ClosestSharesBit(t: Shape, key: nat)
    requires t.Fork? && Trie(t)
    ensures Bit(Closest(t, key).key, t.bit) == Bit(key, t.bit)
  {
    ClosestIsPresent(t.left, key);
    ClosestIsPresent(t.right, key);
    var h := Shr(FirstKey(t.left), t.bit + 1);
    if Bit(key, t.bit) == 0 {
      AgreeOnKey(t.left, t.bit, 2 * h, Closest(t, key).key);
    } else {
      AgreeOnKey(t.right, t.bit, 2 * h + 1, Closest(t, key).key);
    }
  }

  /** The keys left and right of a leaf are the smaller and the larger ones. */
  lemma TipSplitsKeys(c: Context, i: nat, key: nat)
    requires Trie(Plug(c, Tip(i, key)))
    ensures forall k :: k in LowerKeys(c) <==> k in Keys(Plug(c, Tip(i, key))) && k < key
    ensures forall k :: k in UpperKeys(c) <==> k in Keys(Plug(c, Tip(i, key))) && key < k
  {
    PlugHolds(c, Tip(i, key));
    PlugOrders(c, Tip(i, key), key);
  }

  // ---------- splicing a leaf in ----------

  /** What insertion puts at the hole. */
  ghost function Spliced(t: Shape, node: nat, bit: nat, leaf: nat, key: nat): Shape {
    if Bit(key, bit) == 0 then Fork(node, bit, Tip(leaf, key), t) else Fork(node, bit, t, Tip(leaf, key))
  }

  lemma SplicedIsTrie(t: Shape, node: nat, bit: nat, leaf: nat, key: nat, k: nat)
    requires Trie(t) && Below(t, bit) && k in Keys(t)
    requires Shr(k, bit + 1) == Shr(key, bit + 1) && Bit(k, bit) != Bit(key, bit)
    ensures Trie(Spliced(t, node, bit, leaf, key))
  {
    ShrStep(key, bit);
    ShrStep(k, bit);
    TrieAgrees(t, bit, k);
    AgreeOnKey(t, bit, Shr(k, bit), FirstKey(t));
    ShrStep(FirstKey(t), bit);
  }

  lemma SplicedKeepsPrefixes(t: Shape, node: nat, bit: nat, leaf: nat, key: nat, k: nat)
    requires k in Keys(t) && Shr(k, bit + 1) == Shr(key, bit + 1)
    ensures KeepsPrefixes(t, Spliced(t, node, bit, leaf, key), bit + 1)
  {
    forall q: nat, g: nat | q >= bit + 1 && Agree(t, q, g)
      ensures Agree(Spliced(t, node, bit, leaf, key), q, g)
    {
      AgreeOnKey(t, q, g, k);
      ShrAgreesAbove(k, key, bit + 1, q);
    }
  }

  /** Inserting at the hole keeps the crit-bit property. */
  lemma SpliceKeepsTrie(c: Context, t: Shape, node: nat, bit: nat, leaf: nat, key: nat, k: nat)
    requires Trie(Plug(c, t)) && Above(c, bit + 1) && Below(t, bit) && k in Keys(t)
    requires Shr(k, bit + 1) == Shr(key, bit + 1) && Bit(k, bit) != Bit(key, bit)
    ensures Trie(Plug(c, Spliced(t, node, bit, leaf, key)))
  {
    PlugTrie(c, t);
    SplicedIsTrie(t, node, bit, leaf, key, k);
    SplicedKeepsPrefixes(t, node, bit, leaf, key, k);
    ReplaceTrie(c, t, Spliced(t, node, bit, leaf, key), bit + 1);
  }

  /** Inserting at the hole adds exactly one node and one leaf, both new. */
  lemma SpliceAddsIndices(c: Context, t: Shape, node: nat, bit: nat, leaf: nat, key: nat)
    requires Distinct(Plug(c, t)) && node !in Nodes(Plug(c, t)) && leaf !in Leaves(Plug(c, t))
    ensures Distinct(Plug(c, Spliced(t, node, bit, leaf, key)))
    ensures Nodes(Plug(c, Spliced(t, node, bit, leaf, key))) == Nodes(Plug(c, t)) + {node}
    ensures Leaves(Plug(c, Spliced(t, node, bit, leaf, key))) == Leaves(Plug(c, t)) + {leaf}
  {
    var t' := Spliced(t, node, bit, leaf, key);
    PlugDistinct(c, t);
    PlugHolds(c, t);
    PlugHolds(c, t');
    SplicedIndices(t, node, bit, leaf, key);
    ReplaceDistinct(c, t, t');
  }

  lemma SpliceAddsKey(c: Context, t: Shape, node: nat, bit: nat, leaf: nat, key: nat)
    ensures Keys(Plug(c, Spliced(t, node, bit, leaf, key))) == Keys(Plug(c, t)) + {key}
  {
    PlugHolds(c, t);
    PlugHolds(c, Spliced(t, node, bit, leaf, key));
  }

  lemma SplicedIndices(t: Shape, node: nat, bit: nat, leaf: nat, key: nat)
    ensures Nodes(Spliced(t, node, bit, leaf, key)) == Nodes(t) + {node}
    ensures Leaves(Spliced(t, node, bit, leaf, key)) == Leaves(t) + {leaf}
    ensures Distinct(t) && node !in Nodes(t) && leaf !in Leaves(t)
        ==> Distinct(Spliced(t, node, bit, leaf, key))
  {
  }

  /** Replacing a fork by one of its children keeps the crit-bit property. */
  lemma PromoteKeepsTrie(c: Context, f: Shape, t: Shape)
    requires f.Fork? && (t == f.left || t == f.right) && Trie(Plug(c, f))
    ensures Trie(Plug(c, t))
  {
    PlugTrie(c, f);
    PlugBits(c, f);
    ReplaceTrie(c, f, t, f.bit + 1);
  }

  /** Replacing a fork over leaf `leaf` by its other child drops exactly that fork and that leaf. */
  lemma PromoteDropsIndices(c: Context, f: Shape, t: Shape, leaf: nat, key: nat)
    requires f.Fork? && Distinct(Plug(c, f))
    requires (f.left == Tip(leaf, key) && t == f.right) || (f.right == Tip(leaf, key) && t == f.left)
    ensures Distinct(Plug(c, t))
    ensures Nodes(Plug(c, f)) == Nodes(Plug(c, t)) + {f.node} && f.node !in Nodes(Plug(c, t))
    ensures Leaves(Plug(c, f)) == Leaves(Plug(c, t)) + {leaf} && leaf !in Leaves(Plug(c, t))
  {
    PlugDistinct(c, f);
    SiblingIndices(f, t, leaf, key);
    ReplaceIndices(c, f, t);
  }

  /** Replacing a subtree by one with fewer indices. */
  lemma ReplaceIndices(c: Context, f: Shape, t: Shape)
    requires Distinct(Plug(c, f)) && Distinct(t) && Nodes(t) <= Nodes(f) && Leaves(t) <= Leaves(f)
    ensures Distinct(Plug(c, t))
    ensures Nodes(Plug(c, f)) == Nodes(Plug(c, t)) + (Nodes(f) - Nodes(t))
    ensures Nodes(Plug(c, t)) !! Nodes(f) - Nodes(t)
    ensures Leaves(Plug(c, f)) == Leaves(Plug(c, t)) + (Leaves(f) - Leaves(t))
    ensures Leaves(Plug(c, t)) !! Leaves(f) - Leaves(t)
  {
    PlugDistinct(c, f);
    PlugHolds(c, f);
    PlugHolds(c, t);
    ReplaceDistinct(c, f, t);
  }

  lemma SiblingIndices(f: Shape, t: Shape, leaf: nat, key: nat)
    requires f.Fork? && Distinct(f)
    requires (f.left == Tip(leaf, key) && t == f.right) || (f.right == Tip(leaf, key) && t == f.left)
    ensures Distinct(t)
    ensures Nodes(f) == Nodes(t) + {f.node} && f.node !in Nodes(t)
    ensures Leaves(f) == Leaves(t) + {leaf} && leaf !in Leaves(t)
  {
  }

  /**
    The `update_ref` calls of an insertion: node `node` is hung under `q` (unless it becomes the root), then
    leaf `leaf` and tree index `child` are hung under `node`.
   */
  function Attach<V>(nodes: NodeMap, leaves: LeafMap<V>, q: nat, isLeft: bool, node: nat, leaf: nat, side: bool,
      child: nat): (NodeMap, LeafMap<V>)
    requires Attachable(nodes, leaves, q, node, leaf, child)
  {
    var (n1, l1) := if q == PARTITION_INDEX then (nodes, leaves) else Relink(nodes, leaves, q, node, isLeft);
    var (n2, l2) := Relink(n1, l1, node, MAX_INDEX - leaf, side);
    Relink(n2, l2, node, child, !side)
  }

  predicate Attachable<V>(nodes: NodeMap, leaves: LeafMap<V>, q: nat, node: nat, leaf: nat, child: nat) {
    && node < PARTITION_INDEX && node in nodes && node != q && node != child && q != child
    && leaf < CAPACITY && leaf in leaves && child != MAX_INDEX - leaf
    && (q != PARTITION_INDEX ==> q in nodes)
    && (if child > PARTITION_INDEX then child <= MAX_INDEX && MAX_INDEX - child in leaves else child in nodes)
  }

  /** Every internal node an insertion touches, and no other. */
  ghost predicate AttachedNodes(nodes: NodeMap, q: nat, isLeft: bool, node: nat, leaf: nat, side: bool, child: nat,
      n: NodeMap)
    requires leaf < CAPACITY && node in nodes
    requires (q != PARTITION_INDEX ==> q in nodes) && (child <= PARTITION_INDEX ==> child in nodes)
  {
    && n.Keys == nodes.Keys
    && n[node] == InternalNode(nodes[node].mask, if q == PARTITION_INDEX then nodes[node].parent else q,
                               if side then MAX_INDEX - leaf else child, if side then child else MAX_INDEX - leaf)
    && (q != PARTITION_INDEX ==> n[q] == SetChild(nodes, q, node, isLeft)[q])
    && (child <= PARTITION_INDEX ==> n[child] == nodes[child].(parent := node))
    && (forall m | m in nodes && m != node && m != q && m != child :: n[m] == nodes[m])
  }

  /** Every leaf an insertion touches, and no other. */
  ghost predicate AttachedLeaves<V>(leaves: LeafMap<V>, node: nat, leaf: nat, child: nat, l: LeafMap<V>)
    requires leaf in leaves && (child > PARTITION_INDEX ==> child <= MAX_INDEX && MAX_INDEX - child in leaves)
  {
    && SameEntries(leaves, l) && l[leaf].parent == node
    && (child > PARTITION_INDEX ==> l[MAX_INDEX - child].parent == node)
    && (forall i | i in leaves && i != leaf && (child <= PARTITION_INDEX || i != MAX_INDEX - child) ::
        l[i] == leaves[i])
  }

  ghost predicate Attached<V>(nodes: NodeMap, leaves: LeafMap<V>, q: nat, isLeft: bool, node: nat, leaf: nat,
      side: bool, child: nat, n: NodeMap, l: LeafMap<V>)
    requires Attachable(nodes, leaves, q, node, leaf, child)
  {
    AttachedNodes(nodes, q, isLeft, node, leaf, side, child, n) && AttachedLeaves(leaves, node, leaf, child, l)
  }

  lemma AttachEffect<V>(nodes: NodeMap, leaves: LeafMap<V>, q: nat, isLeft: bool, node: nat, leaf: nat, side: bool,
      child: nat)
    requires Attachable(nodes, leaves, q, node, leaf, child)
    ensures var (n, l) := Attach(nodes, leaves, q, isLeft, node, leaf, side, child);
      && Attached(nodes, leaves, q, isLeft, node, leaf, side, child, n, l)
      && n.Keys == nodes.Keys && SameEntries(leaves, l)
  {
    AttachTouchesNodes(nodes, leaves, q, isLeft, node, leaf, side, child);
    AttachTouchesLeaves(nodes, leaves, q, isLeft, node, leaf, side, child);
    hide Attach;
  }

  lemma AttachTouchesNodes<V>(nodes: NodeMap, leaves: LeafMap<V>, q: nat, isLeft: bool, node: nat, leaf: nat,
      side: bool, child: nat)
    requires Attachable(nodes, leaves, q, node, leaf, child)
    ensures AttachedNodes(nodes, q, isLeft, node, leaf, side, child,
                          Attach(nodes, leaves, q, isLeft, node, leaf, side, child).0)
  {
  }

  lemma AttachTouchesLeaves<V>(nodes: NodeMap, leaves: LeafMap<V>, q: nat, isLeft: bool, node: nat, leaf: nat,
      side: bool, child: nat)
    requires Attachable(nodes, leaves, q, node, leaf, child)
    ensures AttachedLeaves(leaves, node, leaf, child, Attach(nodes, leaves, q, isLeft, node, leaf, side, child).1)
  {
  }

  /** `n` and `l` are `nodes` and `leaves` after an insertion at the hole of `Plug(c, t)`. */
  ghost predicate AttachedAt<V>(c: Context, t: Shape, node: nat, leaf: nat, side: bool,
      nodes: NodeMap, leaves: LeafMap<V>, n: NodeMap, l: LeafMap<V>)
  {
    && Linked(Plug(c, t), PARTITION_INDEX, nodes, leaves) && Distinct(Plug(c, t))
    && node !in Nodes(Plug(c, t)) && leaf !in Leaves(Plug(c, t))
    && IndexOf(t) >= 0 && Attachable(nodes, leaves, ParentOf(c), node, leaf, IndexOf(t))
    && Attached(nodes, leaves, ParentOf(c), c.InLeft?, node, leaf, side, IndexOf(t), n, l)
  }

  lemma AttachedBelow<V>(c: Context, t: Shape, node: nat, leaf: nat, side: bool,
      nodes: NodeMap, leaves: LeafMap<V>, n: NodeMap, l: LeafMap<V>)
    requires AttachedAt(c, t, node, leaf, side, nodes, leaves, n, l)
    ensures Linked(t, node, n, l)
    ensures c == Hole <==> ParentOf(c) == PARTITION_INDEX
  {
    AtHole(c, t, nodes, leaves);
    PlugHolds(c, t);
    LinkedBounds(t, ParentOf(c), nodes, leaves);
    Reparent(t, ParentOf(c), node, nodes, leaves, n, l);
  }

  /** The indices around the hole are not those of the subtree in it. */
  lemma OutsideHole<V>(c: Context, t: Shape, nodes: NodeMap, leaves: LeafMap<V>)
    requires Linked(Plug(c, t), PARTITION_INDEX, nodes, leaves) && Distinct(Plug(c, t))
    ensures forall m | m in OuterNodes(c) :: m in nodes && m in Nodes(Plug(c, t)) && m != IndexOf(t)
    ensures forall i | i in OuterLeaves(c) :: i in leaves && i in Leaves(Plug(c, t)) && MAX_INDEX - i != IndexOf(t)
  {
    PlugHolds(c, t);
    PlugDistinct(c, t);
    LinkedBounds(Plug(c, t), PARTITION_INDEX, nodes, leaves);
    RootIndices(t);
  }

  lemma AttachedAround<V>(c: Context, t: Shape, node: nat, leaf: nat, side: bool,
      nodes: NodeMap, leaves: LeafMap<V>, n: NodeMap, l: LeafMap<V>)
    requires AttachedAt(c, t, node, leaf, side, nodes, leaves, n, l)
    ensures LinkedAround(c, node, n, l)
  {
    OutsideHole(c, t, nodes, leaves);
    AtHole(c, t, nodes, leaves);
    assert SameNodes(OuterNodes(c) - {ParentOf(c)}, nodes, n);
    assert SameLeaves(OuterLeaves(c), leaves, l);
    RelinkAround(c, IndexOf(t), node, nodes, leaves, n, l);
  }

  /** After an insertion the maps spell out the tree with the new fork spliced in at the hole. */
  lemma AttachLinks<V>(c: Context, t: Shape, node: nat, bit: nat, leaf: nat, key: nat,
      nodes: NodeMap, leaves: LeafMap<V>, n: NodeMap, l: LeafMap<V>)
    requires AttachedAt(c, t, node, leaf, Bit(key, bit) == 0, nodes, leaves, n, l)
    requires nodes[node].mask == Pow2(bit) && leaves[leaf].key == key
    requires c == Hole ==> nodes[node].parent == PARTITION_INDEX
    ensures Linked(Plug(c, Spliced(t, node, bit, leaf, key)), PARTITION_INDEX, n, l)
  {
    AttachedBelow(c, t, node, leaf, Bit(key, bit) == 0, nodes, leaves, n, l);
    AttachedAround(c, t, node, leaf, Bit(key, bit) == 0, nodes, leaves, n, l);
    hide Plug, LinkedAround, Distinct, Pow2, Bit;
    SplicedIsLinked(c, t, node, bit, leaf, key, nodes, leaves, n, l);
    PlugLinked(c, Spliced(t, node, bit, leaf, key), n, l);
    hide Linked;
  }

  /** The new fork itself: its node, its new leaf and the subtree that was in the hole. */
  lemma SplicedIsLinked<V>(c: Context, t: Shape, node: nat, bit: nat, leaf: nat, key: nat,
      nodes: NodeMap, leaves: LeafMap<V>, n: NodeMap, l: LeafMap<V>)
    requires AttachedAt(c, t, node, leaf, Bit(key, bit) == 0, nodes, leaves, n, l) && Linked(t, node, n, l)
    requires nodes[node].mask == Pow2(bit) && leaves[leaf].key == key
    requires (c == Hole <==> ParentOf(c) == PARTITION_INDEX) && (c == Hole ==> nodes[node].parent == PARTITION_INDEX)
    ensures Linked(Spliced(t, node, bit, leaf, key), ParentOf(c), n, l)
    ensures IndexOf(Spliced(t, node, bit, leaf, key)) == node
  {
    hide Plug, LinkedAround, Distinct, Pow2, Bit;
  }

  lemma RootIndices(t: Shape)
    ensures t.Tip? ==> t.leaf in Leaves(t)
    ensures t.Fork? ==> t.node in Nodes(t)
  {
  }

  /** The subtree in the hole is named by a live tree index. */
  lemma HoleIndex<V>(c: Context, t: Shape, nodes: NodeMap, leaves: LeafMap<V>)
    requires Linked(Plug(c, t), PARTITION_INDEX, nodes, leaves)
    ensures IndexOf(t) >= 0
    ensures if IndexOf(t) > PARTITION_INDEX
            then IndexOf(t) <= MAX_INDEX && MAX_INDEX - IndexOf(t) in Leaves(Plug(c, t))
            else IndexOf(t) in Nodes(Plug(c, t))
    ensures forall n | n in Nodes(Plug(c, t)) :: n in nodes
    ensures forall i | i in Leaves(Plug(c, t)) :: i in leaves
  {
    PlugHolds(c, t);
    RootIndices(t);
    LinkedBounds(Plug(c, t), PARTITION_INDEX, nodes, leaves);
  }

  lemma PlaceIsAttachable<V>(c: Context, t: Shape, node: nat, leaf: nat, nodes: NodeMap, leaves: LeafMap<V>)
    requires Linked(Plug(c, t), PARTITION_INDEX, nodes, leaves) && Distinct(Plug(c, t))
    requires node < PARTITION_INDEX && node in nodes && node !in Nodes(Plug(c, t))
    requires leaf < CAPACITY && leaf in leaves && leaf !in Leaves(Plug(c, t))
    ensures IndexOf(t) >= 0 && Attachable(nodes, leaves, ParentOf(c), node, leaf, IndexOf(t))
    ensures c == Hole <==> ParentOf(c) == PARTITION_INDEX
    ensures c != Hole ==> (nodes[ParentOf(c)].left == IndexOf(t) <==> c.InLeft?)
  {
    hide Linked, LinkedAround, Distinct, Plug, Nodes, Leaves, OuterNodes, OuterLeaves, IndexOf;
    HoleIndex(c, t, nodes, leaves);
    AtHole(c, t, nodes, leaves);
    OutsideHole(c, t, nodes, leaves);
    PlugHolds(c, t);
    LinkedBounds(Plug(c, t), PARTITION_INDEX, nodes, leaves);
  }

  /** An insertion at the hole, from the tree before it to the tree after it. */
  lemma InsertRepresents<V>(c: Context, t: Shape, node: nat, bit: nat, leaf: nat, entry: LeafNode<V>, k: nat,
      root: nat, nodes: NodeMap, leaves: LeafMap<V>)
    requires Represents(Plug(c, t), root, nodes, leaves)
    requires Above(c, bit + 1) && Below(t, bit) && k in Keys(t)
    requires Shr(k, bit + 1) == Shr(entry.key, bit + 1) && Bit(k, bit) != Bit(entry.key, bit)
    requires node < PARTITION_INDEX && node !in nodes && leaf < CAPACITY && leaf !in leaves
    ensures
      var nodes1 := nodes[node := InternalNode(Pow2(bit), PARTITION_INDEX, PARTITION_INDEX, PARTITION_INDEX)];
      var leaves1 := leaves[leaf := entry];
      && Placed(c, t, node, leaf, nodes1, leaves1)
      && var side := Bit(entry.key, bit) == 0;
        var (n, l) := Attach(nodes1, leaves1, ParentOf(c), c.InLeft?, node, leaf, side, IndexOf(t));
        && Represents(Plug(c, Spliced(t, node, bit, leaf, entry.key)), if c == Hole then node else root, n, l)
        && SameEntries(leaves1, l) && n.Keys == nodes.Keys + {node}
    ensures Keys(Plug(c, Spliced(t, node, bit, leaf, entry.key))) == Keys(Plug(c, t)) + {entry.key}
  {
    SpliceAddsKey(c, t, node, bit, leaf, entry.key);
    hide Linked, Trie, Distinct, Nodes, Leaves, Keys, Plug, Above, Agree, Shr, Pow2;
    hide Attach, AttachedNodes, AttachedLeaves;
    var nodes1 := nodes[node := InternalNode(Pow2(bit), PARTITION_INDEX, PARTITION_INDEX, PARTITION_INDEX)];
    var leaves1 := leaves[leaf := entry];
    FrameLinked(Plug(c, t), PARTITION_INDEX, nodes, leaves, nodes1, leaves1);
    PlaceIsAttachable(c, t, node, leaf, nodes1, leaves1);
    var side := Bit(entry.key, bit) == 0;
    var (n, l) := Attach(nodes1, leaves1, ParentOf(c), c.InLeft?, node, leaf, side, IndexOf(t));
    AttachEffect(nodes1, leaves1, ParentOf(c), c.InLeft?, node, leaf, side, IndexOf(t));
    AttachRepresents(c, t, node, bit, leaf, entry.key, k, if c == Hole then node else root, nodes1, leaves1, n, l);
  }

  ghost predicate Placed<V>(c: Context, t: Shape, node: nat, leaf: nat, nodes: NodeMap, leaves: LeafMap<V>) {
    && IndexOf(t) >= 0 && Attachable(nodes, leaves, ParentOf(c), node, leaf, IndexOf(t))
    && (c == Hole <==> ParentOf(c) == PARTITION_INDEX)
    && (c != Hole ==> (nodes[ParentOf(c)].left == IndexOf(t) <==> c.InLeft?))
  }

  /** The tree after an insertion at the hole. */
  lemma AttachRepresents<V>(c: Context, t: Shape, node: nat, bit: nat, leaf: nat, key: nat, k: nat,
      root: nat, nodes: NodeMap, leaves: LeafMap<V>, n: NodeMap, l: LeafMap<V>)
    requires AttachedAt(c, t, node, leaf, Bit(key, bit) == 0, nodes, leaves, n, l)
    requires nodes[node].mask == Pow2(bit) && leaves[leaf].key == key
    requires c == Hole ==> nodes[node].parent == PARTITION_INDEX
    requires Trie(Plug(c, t)) && Above(c, bit + 1) && Below(t, bit) && k in Keys(t)
    requires Shr(k, bit + 1) == Shr(key, bit + 1) && Bit(k, bit) != Bit(key, bit)
    requires nodes.Keys == Nodes(Plug(c, t)) + {node} && leaves.Keys == Leaves(Plug(c, t)) + {leaf}
    requires root == if c == Hole then node else IndexOf(Plug(c, t))
    ensures Represents(Plug(c, Spliced(t, node, bit, leaf, key)), root, n, l)
  {
    AttachLinks(c, t, node, bit, leaf, key, nodes, leaves, n, l);
    SpliceKeepsTrie(c, t, node, bit, leaf, key, k);
    SpliceAddsIndices(c, t, node, bit, leaf, key);
    PlugLinked(c, t, nodes, leaves);
    PlugLinked(c, Spliced(t, node, bit, leaf, key), n, l);
  }

  // ---------- taking a leaf out ----------

  /** Every entry a removal touches: node `node` and leaf `leaf` go, tree index `child` moves up under `q`. */
  ghost predicate Detached<V>(nodes: NodeMap, leaves: LeafMap<V>, q: nat, isLeft: bool, node: nat, leaf: nat,
      child: nat, n: NodeMap, l: LeafMap<V>)
  {
    && n.Keys == nodes.Keys - {node} && l.Keys == leaves.Keys - {leaf}
    && (q != PARTITION_INDEX ==> q in nodes && q in n && n[q] == SetChild(nodes, q, child, isLeft)[q])
    && (child < PARTITION_INDEX ==> child in nodes && child in n && n[child] == nodes[child].(parent := q))
    && (forall m | m in n && m != q && m != child :: n[m] == nodes[m])
    && (forall i | i in l :: l[i].key == leaves[i].key && l[i].value == leaves[i].value)
    && (forall i | i in l && (child <= PARTITION_INDEX || i != MAX_INDEX - child) :: l[i].parent == leaves[i].parent)
    && (child > PARTITION_INDEX ==> child <= MAX_INDEX && MAX_INDEX - child in l && l[MAX_INDEX - child].parent == q)
  }

  /** `n` and `l` are `nodes` and `leaves` after taking leaf `leaf` out of fork `f` at the hole, keeping `t`. */
  ghost predicate DetachedAt<V>(c: Context, f: Shape, t: Shape, leaf: nat, key: nat,
      nodes: NodeMap, leaves: LeafMap<V>, n: NodeMap, l: LeafMap<V>)
  {
    && f.Fork? && Linked(Plug(c, f), PARTITION_INDEX, nodes, leaves) && Distinct(Plug(c, f))
    && ((f.left == Tip(leaf, key) && t == f.right) || (f.right == Tip(leaf, key) && t == f.left))
    && IndexOf(t) >= 0
    && Detached(nodes, leaves, ParentOf(c), c.InLeft?, f.node, leaf, IndexOf(t), n, l)
  }

  lemma DetachedBelow<V>(c: Context, f: Shape, t: Shape, leaf: nat, key: nat,
      nodes: NodeMap, leaves: LeafMap<V>, n: NodeMap, l: LeafMap<V>)
    requires DetachedAt(c, f, t, leaf, key, nodes, leaves, n, l)
    ensures Linked(t, ParentOf(c), n, l)
  {
    AtHole(c, f, nodes, leaves);
    SiblingIndices(f, t, leaf, key);
    LinkedBounds(f, ParentOf(c), nodes, leaves);
    Reparent(t, f.node, ParentOf(c), nodes, leaves, n, l);
  }

  lemma OutsideFork<V>(c: Context, f: Shape, t: Shape, leaf: nat, key: nat, nodes: NodeMap, leaves: LeafMap<V>)
    requires f.Fork? && Linked(Plug(c, f), PARTITION_INDEX, nodes, leaves) && Distinct(Plug(c, f))
    requires (f.left == Tip(leaf, key) && t == f.right) || (f.right == Tip(leaf, key) && t == f.left)
    ensures forall m | m in OuterNodes(c) :: m in nodes && m != f.node && m != IndexOf(t)
    ensures forall i | i in OuterLeaves(c) :: i in leaves && i != leaf && MAX_INDEX - i != IndexOf(t)
  {
    PlugHolds(c, f);
    PlugDistinct(c, f);
    SiblingIndices(f, t, leaf, key);
    LinkedBounds(Plug(c, f), PARTITION_INDEX, nodes, leaves);
    RootIndices(t);
  }

  lemma DetachedAround<V>(c: Context, f: Shape, t: Shape, leaf: nat, key: nat,
      nodes: NodeMap, leaves: LeafMap<V>, n: NodeMap, l: LeafMap<V>)
    requires DetachedAt(c, f, t, leaf, key, nodes, leaves, n, l)
    ensures LinkedAround(c, IndexOf(t), n, l)
  {
    OutsideFork(c, f, t, leaf, key, nodes, leaves);
    AtHole(c, f, nodes, leaves);
    assert SameNodes(OuterNodes(c) - {ParentOf(c)}, nodes, n);
    assert SameLeaves(OuterLeaves(c), leaves, l);
    RelinkAround(c, f.node, IndexOf(t), nodes, leaves, n, l);
  }

  /** After a removal the maps spell out the tree with the sibling promoted. */
  lemma DetachLinks<V>(c: Context, f: Shape, t: Shape, leaf: nat, key: nat,
      nodes: NodeMap, leaves: LeafMap<V>, n: NodeMap, l: LeafMap<V>)
    requires DetachedAt(c, f, t, leaf, key, nodes, leaves, n, l)
    ensures Linked(Plug(c, t), PARTITION_INDEX, n, l)
  {
    DetachedBelow(c, f, t, leaf, key, nodes, leaves, n, l);
    DetachedAround(c, f, t, leaf, key, nodes, leaves, n, l);
    PlugLinked(c, t, n, l);
  }

  lemma PromoteDropsKey(c: Context, f: Shape, t: Shape, leaf: nat, key: nat)
    requires f.Fork? && Trie(Plug(c, f))
    requires (f.left == Tip(leaf, key) && t == f.right) || (f.right == Tip(leaf, key) && t == f.left)
    ensures Keys(Plug(c, t)) == Keys(Plug(c, f)) - {key}
  {
    hide *;
    PlugTrie(c, f);
    SiblingKeys(f, t, leaf, key);
    PlugHolds(c, f);
    PlugHolds(c, t);
    assert key !in LowerKeys(c) && key !in UpperKeys(c) by {
      PlugOrders(c, f, key);
    }
  }

  lemma SiblingKeys(f: Shape, t: Shape, leaf: nat, key: nat)
    requires f.Fork? && Trie(f)
    requires (f.left == Tip(leaf, key) && t == f.right) || (f.right == Tip(leaf, key) && t == f.left)
    ensures Keys(f) == Keys(t) + {key} && key !in Keys(t)
  {
    forall k | k in Keys(t) ensures k != key {
      if t == f.right { ForkOrders(f, key, k); } else { ForkOrders(f, k, key); }
    }
  }

  /** A removal, from the tree before it to the tree after it. */
  lemma RemoveRepresents<V>(c: Context, f: Shape, t: Shape, leaf: nat, key: nat,
      root: nat, nodes: NodeMap, leaves: LeafMap<V>, n: NodeMap, l: LeafMap<V>)
    requires Represents(Plug(c, f), root, nodes, leaves)
    requires DetachedAt(c, f, t, leaf, key, nodes, leaves, n, l)
    ensures Represents(Plug(c, t), if c == Hole then IndexOf(t) else root, n, l)
    ensures Keys(Plug(c, t)) == Keys(Plug(c, f)) - {key}
  {
    DetachLinks(c, f, t, leaf, key, nodes, leaves, n, l);
    PromoteKeepsTrie(c, f, t);
    PromoteDropsIndices(c, f, t, leaf, key);
    PromoteDropsKey(c, f, t, leaf, key);
    PlugLinked(c, f, nodes, leaves);
    PlugLinked(c, t, n, l);
  }

  /** What the source reads around a leaf it is about to take out. */
  ghost predicate Detachable<V>(nodes: NodeMap, leaves: LeafMap<V>, q: nat, isLeft: bool, node: nat, leaf: nat,
      child: nat)
  {
    && leaf in leaves && leaf < CAPACITY && leaves[leaf].parent == node && node in nodes
    && child == (if nodes[node].left == MAX_INDEX - leaf then nodes[node].right else nodes[node].left)
    && nodes[node].parent == q && child != node && child != q && q != node
    && (if child > PARTITION_INDEX then child <= MAX_INDEX && MAX_INDEX - child in leaves && MAX_INDEX - child != leaf
        else child < PARTITION_INDEX && child in nodes)
    && (q != PARTITION_INDEX ==> q in nodes && (nodes[q].left == node <==> isLeft))
  }

  lemma AroundLeaf<V>(c: Context, f: Shape, t: Shape, leaf: nat, key: nat, nodes: NodeMap, leaves: LeafMap<V>)
    requires Linked(Plug(c, f), PARTITION_INDEX, nodes, leaves) && Distinct(Plug(c, f)) && f.Fork?
    requires (f.left == Tip(leaf, key) && t == f.right) || (f.right == Tip(leaf, key) && t == f.left)
    ensures IndexOf(t) >= 0
    ensures Detachable(nodes, leaves, ParentOf(c), c.InLeft?, f.node, leaf, IndexOf(t))
    ensures c == Hole <==> ParentOf(c) == PARTITION_INDEX
  {
    AtHole(c, f, nodes, leaves);
    OutsideFork(c, f, t, leaf, key, nodes, leaves);
    LinkedBounds(f, ParentOf(c), nodes, leaves);
    SiblingIndices(f, t, leaf, key);
    RootIndices(t);
    ChildrenDiffer(f.left, f.right, f.node, nodes, leaves);
  }

  // ---------- reading the tree off the maps ----------

  /** Every internal node of a tree sits at some hole. */
  lemma {:induction false} NodeAtHole(c: Context, s: Shape, n: nat) returns (d: Context, f: Shape)
    requires n in Nodes(s)
    ensures f.Fork? && f.node == n && Plug(d, f) == Plug(c, s)
    decreases s
  {
    if s.node == n {
      d, f := c, s;
    } else if n in Nodes(s.left) {
      d, f := NodeAtHole(InLeft(s.node, s.bit, c, s.right), s.left, n);
    } else {
      d, f := NodeAtHole(InRight(s.node, s.bit, s.left, c), s.right, n);
    }
  }

  /** Tree index `child` exists, points back to `n`, and tests a lower bit if it is internal. */
  ghost predicate ChildOf<V>(child: nat, n: nat, nodes: NodeMap, leaves: LeafMap<V>)
    requires n in nodes
  {
    if child < PARTITION_INDEX then
      child in nodes && nodes[child].parent == n && nodes[child].mask < nodes[n].mask
    else
      PARTITION_INDEX < child <= MAX_INDEX && MAX_INDEX - child in leaves && leaves[MAX_INDEX - child].parent == n
  }

  /** Links mirror each other and masks are single bits that shrink downward, at every internal node. */
  lemma LinksMirror<V>(s: Shape, root: nat, nodes: NodeMap, leaves: LeafMap<V>, n: nat)
    requires Represents(s, root, nodes, leaves) && n in nodes
    ensures n < PARTITION_INDEX && exists b :: nodes[n].mask == Pow2(b)
    ensures nodes[n].left != nodes[n].right
    ensures ChildOf(nodes[n].left, n, nodes, leaves) && ChildOf(nodes[n].right, n, nodes, leaves)
    ensures var up := nodes[n].parent;
      if up == PARTITION_INDEX then root == n
      else up in nodes && (nodes[up].left == n || nodes[up].right == n) && nodes[n].mask < nodes[up].mask
  {
    var c, f := NodeAtHole(Hole, s, n);
    AtHole(c, f, nodes, leaves);
    PlugTrie(c, f);
    PlugBits(c, f);
    ChildrenDiffer(f.left, f.right, n, nodes, leaves);
    ChildIsLinked(f, f.left, nodes, leaves);
    ChildIsLinked(f, f.right, nodes, leaves);
    if c != Hole {
      PowersGrow(f.bit, c.bit);
    }
    assert nodes[n].mask == Pow2(f.bit);
  }

  lemma ChildIsLinked<V>(f: Shape, t: Shape, nodes: NodeMap, leaves: LeafMap<V>)
    requires f.Fork? && (t == f.left || t == f.right) && Trie(f)
    requires f.node in nodes && nodes[f.node].mask == Pow2(f.bit) && Linked(t, f.node, nodes, leaves)
    ensures IndexOf(t) >= 0 && ChildOf(IndexOf(t), f.node, nodes, leaves)
  {
    if t.Fork? {
      PowersGrow(t.bit, f.bit);
    }
  }
}

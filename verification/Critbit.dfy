/**
  The crit-bit tree of the order book: a map from keys (prices) to values (ticks), kept in two index-linked
  maps that are updated in place.

  The source looks nodes up with `ok_or(..ShouldExist)`; here such a lookup is a plain map selection, so
  that verification shows the error cannot arise. The same holds for `UniqueIndex` and `Overflow`.
 */
module Critbit {
  import opened Bits
  import opened Links
  import opened Shapes
  import opened Splices
  import opened Wrappers

  datatype CritbitTreeError = ExceedCapacity | AlreadyExist | NotFound | ValueOps

  /** `m` holds the smallest key. */
  ghost predicate IsMin<V>(m: nat, leaves: LeafMap<V>) {
    m in leaves && forall i | i in leaves :: leaves[m].key <= leaves[i].key
  }

  ghost predicate IsMax<V>(m: nat, leaves: LeafMap<V>) {
    m in leaves && forall i | i in leaves :: leaves[i].key <= leaves[m].key
  }

  /** Every leaf is an entry of `m`. */
  ghost predicate Holds<V>(m: map<Index, V>, leaves: LeafMap<V>) {
    forall i | i in leaves :: leaves[i].key in m && m[leaves[i].key] == leaves[i].value
  }

  lemma {:induction false} Pigeonhole(s: set<nat>, n: nat)
    requires forall i | i in s :: i < n
    ensures |s| <= n
  {
    if n == 0 {
      assert s == {};
    } else {
      Pigeonhole(s - {n - 1}, n - 1);
      assert n - 1 !in s ==> s - {n - 1} == s;
    }
  }

  // ---------- the tree ----------

  /** Everything a tree stores; what a storage rollback restores. */
  datatype Saved<V> = Saved(root: nat, internalNodes: NodeMap, leaves: LeafMap<V>, maxLeafIndex: nat,
                            minLeafIndex: nat, nextInternalNodeIndex: nat, nextLeafNodeIndex: nat,
                            ghost shape: Shape, ghost contents: map<Index, V>)

  class CritbitTree<V> {
    var root: nat
    var internalNodes: NodeMap
    var leaves: LeafMap<V>
    var maxLeafIndex: nat
    var minLeafIndex: nat
    var nextInternalNodeIndex: nat
    var nextLeafNodeIndex: nat

    /** The tree the two maps spell out, when there is at least one leaf. */
    ghost var shape: Shape

    /** The plain map the tree stands for. */
    ghost var contents: map<Index, V>

    ghost predicate Valid()
      reads this
    {
      if leaves == map[] then Vacant() else Grown()
    }

    ghost predicate Vacant()
      reads this
    {
      && leaves == map[] && internalNodes == map[] && contents == map[]
      && root == PARTITION_INDEX && minLeafIndex == PARTITION_INDEX && maxLeafIndex == PARTITION_INDEX
      && nextInternalNodeIndex == 0 && nextLeafNodeIndex == 0
    }

    ghost predicate Grown()
      reads this
    {
      && leaves != map[]
      && Represents(shape, root, internalNodes, leaves)
      && Holds(contents, leaves) && contents.Keys == Keys(shape)
      && IsMin(minLeafIndex, leaves) && IsMax(maxLeafIndex, leaves)
      && (forall n | n in internalNodes :: n < nextInternalNodeIndex)
      && (forall i | i in leaves :: i < nextLeafNodeIndex)
      && nextInternalNodeIndex < nextLeafNodeIndex <= CAPACITY
    }

    /** The leaves are exactly the entries of `contents`, one leaf for each key. */
    lemma ContentsAreLeaves(key: Index) returns (i: nat)
      requires Valid() && key in contents
      ensures i in leaves && leaves[i].key == key && leaves[i].value == contents[key]
      ensures forall j | j in leaves && leaves[j].key == key :: j == i
    {
      ClosestFinds(shape, key);
      ClosestLinked(shape, PARTITION_INDEX, key, internalNodes, leaves);
      i := Closest(shape, key).leaf;
      forall j | j in leaves && leaves[j].key == key ensures j == i {
        LeafByKey(shape, PARTITION_INDEX, j, internalNodes, leaves);
      }
    }

    /**
      Both kinds of indices are fresh and stay apart: a stored link up to `PARTITION_INDEX` can only mean an
      internal node and one above it only a leaf, and there is one leaf more than internal nodes.
     */
    lemma IndicesStayApart()
      requires Valid() && leaves != map[]
      ensures |leaves| == |internalNodes| + 1
      ensures nextInternalNodeIndex < nextLeafNodeIndex <= CAPACITY < PARTITION_INDEX
      ensures forall n | n in internalNodes :: n < nextInternalNodeIndex
      ensures forall i | i in leaves :: i < nextLeafNodeIndex && MAX_INDEX - i > PARTITION_INDEX
      ensures |leaves| <= nextLeafNodeIndex
    {
      IndexCounts(shape);
      Pigeonhole(leaves.Keys, nextLeafNodeIndex);
    }

    constructor ()
      ensures Valid() && contents == map[] && nextLeafNodeIndex == 0
    {
      root := PARTITION_INDEX;
      internalNodes, leaves := map[], map[];
      maxLeafIndex, minLeafIndex := PARTITION_INDEX, PARTITION_INDEX;
      nextInternalNodeIndex, nextLeafNodeIndex := 0, 0;
      contents := map[];
    }

    // ---------- reading ----------

    predicate IsLeftChild(parent: nat, child: nat)
      reads this
    {
      parent in internalNodes && internalNodes[parent].left == child
    }

    /** The key and leaf index of the best (largest) leaf. */
    method MaxLeaf() returns (r: Option<(Index, nat)>)
      requires Valid()
      ensures r.None? <==> contents == map[]
      ensures r.Some? ==> r.value.0 in contents && forall k | k in contents :: k <= r.value.0
      ensures r.Some? ==> r.value.1 in leaves && leaves[r.value.1].key == r.value.0
    {
      if leaves == map[] {
        return None;
      }
      ExtremesBound();
      return Some((leaves[maxLeafIndex].key, maxLeafIndex));
    }

    /** The key and leaf index of the smallest leaf. */
    method MinLeaf() returns (r: Option<(Index, nat)>)
      requires Valid()
      ensures r.None? <==> contents == map[]
      ensures r.Some? ==> r.value.0 in contents && forall k | k in contents :: r.value.0 <= k
      ensures r.Some? ==> r.value.1 in leaves && leaves[r.value.1].key == r.value.0
    {
      if leaves == map[] {
        return None;
      }
      ExtremesBound();
      return Some((leaves[minLeafIndex].key, minLeafIndex));
    }

    /** The links that `GetClosestLeafIndex` follows; weaker than `Valid`, as insertion stores its leaf first. */
    ghost predicate Walkable()
      reads this
    {
      root != PARTITION_INDEX ==>
        root == IndexOf(shape) && Linked(shape, PARTITION_INDEX, internalNodes, leaves)
    }

    method GetClosestLeafIndex(key: Index) returns (r: Option<nat>)
      requires Walkable()
      ensures r == if root == PARTITION_INDEX then None else Some(Closest(shape, key).leaf)
      ensures r.Some? ==> r.value in leaves && leaves[r.value].key == Closest(shape, key).key
    {
      var curr := root;
      if curr == PARTITION_INDEX {
        return None;
      }
      ghost var t: Shape, p: nat := shape, PARTITION_INDEX;
      while curr < PARTITION_INDEX
        invariant curr == IndexOf(t) && Linked(t, p, internalNodes, leaves)
        invariant Closest(t, key) == Closest(shape, key)
        decreases t
      {
        assert t.Fork?;
        MaskTestsBit(t.bit, key);
        if And(internalNodes[curr].mask, key) == 0 {
          t, p, curr := t.left, curr, internalNodes[curr].left;
        } else {
          t, p, curr := t.right, curr, internalNodes[curr].right;
        }
      }
      assert t.Tip?;
      return Some(MAX_INDEX - curr);
    }

    /** The leaf holding `key`, if there is one. */
    method FindLeaf(key: Index) returns (r: Option<nat>)
      requires Valid()
      ensures r.Some? <==> key in contents
      ensures r.Some? ==> r.value in leaves && leaves[r.value].key == key
    {
      var closest := GetClosestLeafIndex(key);
      match closest
      case Some(i) =>
        if leaves[i].key != key {
          if key in contents { ClosestFinds(shape, key); }
          return None;
        }
        return Some(i);
      case None =>
        return None;
    }

    method LeftMostLeaf(start: nat, ghost t: Shape, ghost p: nat) returns (r: nat)
      requires start == IndexOf(t) && Linked(t, p, internalNodes, leaves) && Trie(t)
      ensures PARTITION_INDEX < r <= MAX_INDEX && MAX_INDEX - r in Leaves(t) && MAX_INDEX - r in leaves
      ensures leaves[MAX_INDEX - r].key in Keys(t)
      ensures forall k | k in Keys(t) :: leaves[MAX_INDEX - r].key <= k
    {
      var curr := start;
      ghost var c, u := Hole, t;
      ghost var q: nat := p;
      while curr < PARTITION_INDEX
        invariant curr == IndexOf(u) && Linked(u, q, internalNodes, leaves)
        invariant Plug(c, u) == t && LowerKeys(c) == {}
        decreases u
      {
        c, u, q, curr := InLeft(u.node, u.bit, c, u.right), u.left, curr, internalNodes[curr].left;
      }
      PlugHolds(c, u);
      PlugOrders(c, u, u.key);
      return curr;
    }

    method RightMostLeaf(start: nat, ghost t: Shape, ghost p: nat) returns (r: nat)
      requires start == IndexOf(t) && Linked(t, p, internalNodes, leaves) && Trie(t)
      ensures PARTITION_INDEX < r <= MAX_INDEX && MAX_INDEX - r in Leaves(t) && MAX_INDEX - r in leaves
      ensures leaves[MAX_INDEX - r].key in Keys(t)
      ensures forall k | k in Keys(t) :: k <= leaves[MAX_INDEX - r].key
    {
      var curr := start;
      ghost var c, u := Hole, t;
      ghost var q: nat := p;
      while curr < PARTITION_INDEX
        invariant curr == IndexOf(u) && Linked(u, q, internalNodes, leaves)
        invariant Plug(c, u) == t && UpperKeys(c) == {}
        decreases u
      {
        c, u, q, curr := InRight(u.node, u.bit, u.left, c), u.right, curr, internalNodes[curr].right;
      }
      PlugHolds(c, u);
      PlugOrders(c, u, u.key);
      return curr;
    }

    /** Following `key` to its leaf: the context of that leaf. */
    lemma LeafContext(key: Index, i: nat) returns (c: Context)
      requires Valid() && i in leaves && leaves[i].key == key
      ensures Plug(c, Tip(i, key)) == shape
      ensures forall k :: k in LowerKeys(c) <==> k in contents && k < key
      ensures forall k :: k in UpperKeys(c) <==> k in contents && key < k
    {
      LeafByKey(shape, PARTITION_INDEX, i, internalNodes, leaves);
      c := Descend(Hole, shape, key);
      DescendPlugs(Hole, shape, key);
      TipSplitsKeys(c, i, key);
    }

    /** Climb from `start` while it is a right child; returns the parent at which this stops. */
    method ClimbWhileRight(start: nat, parent: nat, ghost c0: Context, ghost t0: Shape)
      returns (parentNodeIndex: nat, ghost c: Context, ghost t: Shape)
      requires Linked(Plug(c0, t0), PARTITION_INDEX, internalNodes, leaves) && Distinct(Plug(c0, t0))
      requires start == IndexOf(t0) && parent == ParentOf(c0)
      ensures Plug(c, t) == Plug(c0, t0) && parentNodeIndex == ParentOf(c) && UpperKeys(c) == UpperKeys(c0)
      ensures if parentNodeIndex == PARTITION_INDEX then c == Hole else c.InLeft?
    {
      var ptr := start;
      parentNodeIndex, c, t := parent, c0, t0;
      AtHole(c, t, internalNodes, leaves);
      while parentNodeIndex != PARTITION_INDEX && !IsLeftChild(parentNodeIndex, ptr)
        invariant Plug(c, t) == Plug(c0, t0) && ptr == IndexOf(t) && parentNodeIndex == ParentOf(c)
        invariant UpperKeys(c) == UpperKeys(c0)
        invariant parentNodeIndex == PARTITION_INDEX <==> c == Hole
        invariant c != Hole ==> c.InLeft? == IsLeftChild(parentNodeIndex, ptr)
        decreases c
      {
        AtHole(c, t, internalNodes, leaves);
        ptr := parentNodeIndex;
        parentNodeIndex := internalNodes[ptr].parent;
        c, t := c.up, Fork(c.node, c.bit, c.left, t);
        AtHole(c, t, internalNodes, leaves);
      }
    }

    method ClimbWhileLeft(start: nat, parent: nat, ghost c0: Context, ghost t0: Shape)
      returns (parentNodeIndex: nat, ghost c: Context, ghost t: Shape)
      requires Linked(Plug(c0, t0), PARTITION_INDEX, internalNodes, leaves) && Distinct(Plug(c0, t0))
      requires start == IndexOf(t0) && parent == ParentOf(c0)
      ensures Plug(c, t) == Plug(c0, t0) && parentNodeIndex == ParentOf(c) && LowerKeys(c) == LowerKeys(c0)
      ensures if parentNodeIndex == PARTITION_INDEX then c == Hole else c.InRight?
    {
      var ptr := start;
      parentNodeIndex, c, t := parent, c0, t0;
      AtHole(c, t, internalNodes, leaves);
      while parentNodeIndex != PARTITION_INDEX && IsLeftChild(parentNodeIndex, ptr)
        invariant Plug(c, t) == Plug(c0, t0) && ptr == IndexOf(t) && parentNodeIndex == ParentOf(c)
        invariant LowerKeys(c) == LowerKeys(c0)
        invariant parentNodeIndex == PARTITION_INDEX <==> c == Hole
        invariant c != Hole ==> c.InLeft? == IsLeftChild(parentNodeIndex, ptr)
        decreases c
      {
        AtHole(c, t, internalNodes, leaves);
        ptr := parentNodeIndex;
        parentNodeIndex := internalNodes[ptr].parent;
        c, t := c.up, Fork(c.node, c.bit, t, c.right);
        AtHole(c, t, internalNodes, leaves);
      }
    }

    /** The smallest key among those above the hole of `c`, which is a left child. */
    method FirstAbove(parentNodeIndex: nat, ghost c: Context, ghost t: Shape) returns (i: nat)
      requires Linked(Plug(c, t), PARTITION_INDEX, internalNodes, leaves) && Trie(Plug(c, t))
      requires c.InLeft? && parentNodeIndex == c.node
      ensures i in leaves && leaves[i].key in UpperKeys(c) && forall k | k in UpperKeys(c) :: leaves[i].key <= k
    {
      PlugLinked(c, t, internalNodes, leaves);
      ghost var d := InRight(c.node, c.bit, t, c.up);
      assert Plug(d, c.right) == Plug(c, t);
      PlugTrie(d, c.right);
      var tree := LeftMostLeaf(internalNodes[parentNodeIndex].right, c.right, c.node);
      i := MAX_INDEX - tree;
      PlugOrders(d, c.right, leaves[i].key);
      assert UpperKeys(c) == Keys(c.right) + UpperKeys(d);
    }

    /** The largest key among those below the hole of `c`, which is a right child. */
    method LastBelow(parentNodeIndex: nat, ghost c: Context, ghost t: Shape) returns (i: nat)
      requires Linked(Plug(c, t), PARTITION_INDEX, internalNodes, leaves) && Trie(Plug(c, t))
      requires c.InRight? && parentNodeIndex == c.node
      ensures i in leaves && leaves[i].key in LowerKeys(c) && forall k | k in LowerKeys(c) :: k <= leaves[i].key
    {
      PlugLinked(c, t, internalNodes, leaves);
      ghost var d := InLeft(c.node, c.bit, c.up, t);
      assert Plug(d, c.left) == Plug(c, t);
      PlugTrie(d, c.left);
      var tree := RightMostLeaf(internalNodes[parentNodeIndex].left, c.left, c.node);
      i := MAX_INDEX - tree;
      PlugOrders(d, c.left, leaves[i].key);
      assert LowerKeys(c) == LowerKeys(d) + Keys(c.left);
    }

    /** The key right above `key`, with its leaf index; `None` at the largest key. */
    method NextLeaf(key: Index) returns (r: Result<Option<(Index, nat)>, CritbitTreeError>)
      requires Valid()
      ensures key !in contents ==> r == Err(NotFound)
      ensures key in contents ==> r.Ok?
      ensures r.Ok? && r.value.None? ==> forall k | k in contents :: k <= key
      ensures r.Ok? && r.value.Some? ==>
        var (next, i) := r.value.value;
        && i in leaves && leaves[i].key == next && next in contents && key < next
        && forall k | k in contents && key < k :: next <= k
    {
      var found := FindLeaf(key);
      if found.None? {
        return Err(NotFound);
      }
      var leafIndex := found.value;
      ghost var c := LeafContext(key, leafIndex);
      AtHole(c, Tip(leafIndex, key), internalNodes, leaves);
      var parent, d, t := ClimbWhileRight(MAX_INDEX - leafIndex, leaves[leafIndex].parent, c, Tip(leafIndex, key));
      if parent == PARTITION_INDEX {
        return Ok(None);
      }
      var i := FirstAbove(parent, d, t);
      return Ok(Some((leaves[i].key, i)));
    }

    /** The key right below `key`, with its leaf index; `None` at the smallest key. */
    method PreviousLeaf(key: Index) returns (r: Result<Option<(Index, nat)>, CritbitTreeError>)
      requires Valid()
      ensures key !in contents ==> r == Err(NotFound)
      ensures key in contents ==> r.Ok?
      ensures r.Ok? && r.value.None? ==> forall k | k in contents :: key <= k
      ensures r.Ok? && r.value.Some? ==>
        var (previous, i) := r.value.value;
        && i in leaves && leaves[i].key == previous && previous in contents && previous < key
        && forall k | k in contents && k < key :: k <= previous
    {
      var found := FindLeaf(key);
      if found.None? {
        return Err(NotFound);
      }
      var leafIndex := found.value;
      ghost var c := LeafContext(key, leafIndex);
      AtHole(c, Tip(leafIndex, key), internalNodes, leaves);
      var parent, d, t := ClimbWhileLeft(MAX_INDEX - leafIndex, leaves[leafIndex].parent, c, Tip(leafIndex, key));
      if parent == PARTITION_INDEX {
        return Ok(None);
      }
      var i := LastBelow(parent, d, t);
      return Ok(Some((leaves[i].key, i)));
    }

    // ---------- inserting ----------

    /** `update_ref`. */
    method UpdateRef(parent: nat, child: nat, isLeft: bool)
      requires parent in internalNodes
      requires if child > PARTITION_INDEX then child <= MAX_INDEX && MAX_INDEX - child in leaves
               else child in internalNodes
      modifies this`internalNodes, this`leaves
      ensures (internalNodes, leaves) == Relink(old(internalNodes), old(leaves), parent, child, isLeft)
    {
      var node := internalNodes[parent];
      if isLeft {
        node := node.(left := child);
      } else {
        node := node.(right := child);
      }
      internalNodes := internalNodes[parent := node];
      if child > PARTITION_INDEX {
        var leaf := leaves[MAX_INDEX - child];
        leaves := leaves[MAX_INDEX - child := leaf.(parent := parent)];
      } else {
        var inner := internalNodes[child];
        internalNodes := internalNodes[child := inner.(parent := parent)];
      }
    }

    /** Descend by the bits of `key` to the first node that tests a bit below `newMask`. */
    method Locate(key: Index, newMask: nat, ghost bit: nat)
      returns (curr: nat, parent: nat, ghost c: Context, ghost t: Shape)
      requires root == IndexOf(shape) && Linked(shape, PARTITION_INDEX, internalNodes, leaves) && Trie(shape)
      requires newMask == Pow2(bit) && Bit(Closest(shape, key).key, bit) != Bit(key, bit)
      ensures Plug(c, t) == shape && curr == IndexOf(t) && parent == ParentOf(c)
      ensures Above(c, bit + 1) && Below(t, bit) && Closest(t, key) == Closest(shape, key)
    {
      curr, parent, c, t := root, PARTITION_INDEX, Hole, shape;
      while curr < PARTITION_INDEX
        invariant Plug(c, t) == shape && curr == IndexOf(t) && parent == ParentOf(c)
        invariant Linked(t, parent, internalNodes, leaves) && Trie(t)
        invariant Above(c, bit + 1) && Closest(t, key) == Closest(shape, key)
        decreases t
      {
        var node := internalNodes[curr];
        PowersGrow(bit, t.bit);
        PowersGrow(t.bit, bit);
        if newMask > node.mask {
          break;
        }
        ClosestSharesBit(t, key);
        MaskTestsBit(t.bit, key);
        parent := curr;
        if And(node.mask, key) == 0 {
          curr, c, t := node.left, InLeft(t.node, t.bit, c, t.right), t.left;
        } else {
          curr, c, t := node.right, InRight(t.node, t.bit, t.left, c), t.right;
        }
      }
    }

    /** The pointer updates of an insertion, once its place is known. */
    method AttachLeaf(parent: nat, curr: nat, node: nat, leaf: nat, side: bool)
      requires Attachable(internalNodes, leaves, parent, node, leaf, curr)
      modifies this`root, this`internalNodes, this`leaves
      ensures (internalNodes, leaves)
           == Attach(old(internalNodes), old(leaves), parent, old(IsLeftChild(parent, curr)), node, leaf, side, curr)
      ensures root == if parent == PARTITION_INDEX then node else old(root)
    {
      if parent == PARTITION_INDEX {
        root := node;
      } else {
        var isLeft := IsLeftChild(parent, curr);
        UpdateRef(parent, node, isLeft);
      }
      UpdateRef(node, MAX_INDEX - leaf, side);
      UpdateRef(node, curr, !side);
    }

    method UpdateMinMaxLeaf(newLeafIndex: nat, newKey: Index, ghost others: LeafMap<V>)
      requires newLeafIndex in leaves && leaves[newLeafIndex].key == newKey
      requires IsMin(minLeafIndex, others) && IsMax(maxLeafIndex, others)
      requires newLeafIndex !in others && leaves.Keys == others.Keys + {newLeafIndex}
      requires forall i | i in others :: leaves[i].key == others[i].key
      modifies `minLeafIndex, `maxLeafIndex
      ensures IsMin(minLeafIndex, leaves) && IsMax(maxLeafIndex, leaves)
    {
      if leaves[minLeafIndex].key > newKey {
        minLeafIndex := newLeafIndex;
      }
      if leaves[maxLeafIndex].key < newKey {
        maxLeafIndex := newLeafIndex;
      }
    }

    /**
      Insertion into the map the tree stands for. A full index space and a key that is already present are
      the only errors. As in the source, a failed call leaves its traces (the counter moved on and, for a
      present key, an orphan leaf stored); the caller's transaction discards them.
     */
    method Insert(key: Index, value: V) returns (r: Result<(), CritbitTreeError>)
      requires Valid()
      modifies this
      ensures r == if old(nextLeafNodeIndex) >= CAPACITY then Err(ExceedCapacity)
                   else if key in old(contents) then Err(AlreadyExist) else Ok(())
      ensures r.Ok? ==> Valid() && contents == old(contents)[key := value]
      ensures nextLeafNodeIndex == old(nextLeafNodeIndex) + 1
    {
      hide Linked, Trie, Distinct, Nodes, Leaves, Keys, Closest, IndexOf;
      var newLeafIndex := nextLeafNodeIndex;
      nextLeafNodeIndex := nextLeafNodeIndex + 1;
      if nextLeafNodeIndex > CAPACITY {
        return Err(ExceedCapacity);
      }
      ghost var leaves0 := leaves;
      assert newLeafIndex !in leaves;
      leaves := leaves[newLeafIndex := LeafNode(PARTITION_INDEX, key, value)];
      if leaves0 != map[] {
        RootIsLive(shape, root, internalNodes, leaves0);
        FrameLinked(shape, PARTITION_INDEX, internalNodes, leaves0, internalNodes, leaves);
      }
      var closest := GetClosestLeafIndex(key);
      if closest.None? {
        InsertFirst(key, value);
        return Ok(());
      }
      var closestKey := leaves[closest.value].key;
      ClosestLinked(shape, PARTITION_INDEX, key, internalNodes, leaves0);
      if closestKey == key {
        return Err(AlreadyExist);
      }
      if key in contents {
        ClosestFinds(shape, key);
      }
      InsertNext(key, value, closestKey, newLeafIndex, leaves0);
      return Ok(());
    }

    /** Insertion of the first leaf, once stored. */
    method InsertFirst(key: Index, value: V)
      requires leaves == map[0 := LeafNode(PARTITION_INDEX, key, value)] && internalNodes == map[]
      requires nextInternalNodeIndex == 0 && nextLeafNodeIndex == 1
      modifies `root, `maxLeafIndex, `minLeafIndex, `shape, `contents
      ensures Valid() && contents == map[key := value]
    {
      root := MAX_INDEX;
      maxLeafIndex, minLeafIndex := 0, 0;
      shape, contents := Tip(0, key), map[key := value];
      OneLeaf(key, leaves);
    }

    /** Insertion of a stored leaf into a tree with at least one other leaf. */
    method InsertNext(key: Index, value: V, closestKey: Index, newLeafIndex: nat, ghost leaves0: LeafMap<V>)
      requires Represents(shape, root, internalNodes, leaves0)
      requires contents.Keys == Keys(shape) && Holds(contents, leaves0) && key !in contents
      requires key != closestKey && closestKey == Closest(shape, key).key
      requires newLeafIndex !in leaves0 && leaves == leaves0[newLeafIndex := LeafNode(PARTITION_INDEX, key, value)]
      requires forall n | n in internalNodes :: n < nextInternalNodeIndex
      requires forall i | i in leaves :: i < nextLeafNodeIndex
      requires nextInternalNodeIndex < newLeafIndex < nextLeafNodeIndex <= CAPACITY
      requires IsMin(minLeafIndex, leaves0) && IsMax(maxLeafIndex, leaves0)
      modifies this
      ensures Valid() && contents == old(contents)[key := value] && nextLeafNodeIndex == old(nextLeafNodeIndex)
    {
      hide Linked, Trie, Distinct, Nodes, Leaves, Keys, Closest;
      InsertBeside(key, closestKey, newLeafIndex, leaves0);
      UpdateMinMaxLeaf(newLeafIndex, key, leaves0);
      contents := contents[key := value];
    }

    /** Insertion of a stored leaf next to its closest neighbour. */
    method InsertBeside(key: Index, closestKey: Index, newLeafIndex: nat, ghost leaves0: LeafMap<V>)
      requires Represents(shape, root, internalNodes, leaves0)
      requires key != closestKey && closestKey == Closest(shape, key).key
      requires newLeafIndex < CAPACITY && newLeafIndex !in leaves0
      requires newLeafIndex in leaves && leaves[newLeafIndex].key == key
      requires leaves == leaves0[newLeafIndex := leaves[newLeafIndex]]
      requires forall n | n in internalNodes :: n < nextInternalNodeIndex
      requires nextInternalNodeIndex < CAPACITY
      modifies `root, `internalNodes, `leaves, `shape, `nextInternalNodeIndex
      ensures Represents(shape, root, internalNodes, leaves) && Keys(shape) == old(Keys(shape)) + {key}
      ensures SameEntries(old(leaves), leaves)
      ensures internalNodes.Keys == old(internalNodes.Keys) + {old(nextInternalNodeIndex)}
      ensures nextInternalNodeIndex == old(nextInternalNodeIndex) + 1
    {
      hide Linked, Trie, Distinct, Nodes, Leaves, Keys, Plug, Above, Closest, Spliced, And, Shr, Pow2, NewMask, Attach;
      var newMask := NewMask(key, closestKey);
      ghost var bit := CritBit(key, closestKey);
      NewMaskIsCritBit(key, closestKey);
      var newInternalIndex := nextInternalNodeIndex;
      nextInternalNodeIndex := nextInternalNodeIndex + 1;
      assert newInternalIndex !in internalNodes;
      ghost var nodes0 := internalNodes;
      internalNodes := internalNodes[newInternalIndex :=
        InternalNode(newMask, PARTITION_INDEX, PARTITION_INDEX, PARTITION_INDEX)];
      FrameLinked(shape, PARTITION_INDEX, nodes0, leaves0, internalNodes, leaves);
      var curr, parent, c, t := Locate(key, newMask, bit);
      var side := And(key, newMask) == 0;
      MaskTestsBit(bit, key);
      AndCommutes(key, newMask);
      ClosestIsPresent(t, key);
      InsertRepresents(c, t, newInternalIndex, bit, newLeafIndex, leaves[newLeafIndex], closestKey,
                       root, nodes0, leaves0);
      AttachLeaf(parent, curr, newInternalIndex, newLeafIndex, side);
      shape := Plug(c, Spliced(t, newInternalIndex, bit, newLeafIndex, key));
    }

    // ---------- replacing a value ----------

    /** Writing through `leaves.get_mut(leaf_index)`. */
    method SetValue(leafIndex: nat, value: V)
      requires Valid() && leafIndex in leaves
      modifies `leaves, `contents
      ensures Valid() && contents == old(contents)[leaves[leafIndex].key := value]
      ensures leaves == old(leaves)[leafIndex := old(leaves)[leafIndex].(value := value)]
    {
      OtherKeysDiffer(leafIndex, leaves[leafIndex].key);
      ghost var leaves0 := leaves;
      leaves := leaves[leafIndex := leaves[leafIndex].(value := value)];
      FrameLinked(shape, PARTITION_INDEX, internalNodes, leaves0, internalNodes, leaves);
      EntryWith(leaves0, leafIndex, value, contents);
      hide Linked, Trie, Distinct, Keys, Nodes, Leaves, Holds, IsMin, IsMax;
      contents := contents[leaves[leafIndex].key := value];
    }

    // ---------- storage rollback ----------

    ghost function State(): Saved<V>
      reads this
    {
      Saved(root, internalNodes, leaves, maxLeafIndex, minLeafIndex, nextInternalNodeIndex, nextLeafNodeIndex,
            shape, contents)
    }

    method Save() returns (s: Saved<V>)
      ensures s == State()
    {
      s := Saved(root, internalNodes, leaves, maxLeafIndex, minLeafIndex, nextInternalNodeIndex, nextLeafNodeIndex,
                 shape, contents);
    }

    /** What a failed transaction does to the tree. */
    method Restore(s: Saved<V>)
      modifies this
      ensures State() == s
    {
      root, internalNodes, leaves := s.root, s.internalNodes, s.leaves;
      maxLeafIndex, minLeafIndex := s.maxLeafIndex, s.minLeafIndex;
      nextInternalNodeIndex, nextLeafNodeIndex := s.nextInternalNodeIndex, s.nextLeafNodeIndex;
      shape, contents := s.shape, s.contents;
    }

    // ---------- removing ----------

    method Reset()
      modifies `root, `minLeafIndex, `maxLeafIndex, `nextInternalNodeIndex, `nextLeafNodeIndex
      ensures root == PARTITION_INDEX && minLeafIndex == PARTITION_INDEX && maxLeafIndex == PARTITION_INDEX
      ensures nextInternalNodeIndex == 0 && nextLeafNodeIndex == 0
    {
      root := PARTITION_INDEX;
      minLeafIndex := PARTITION_INDEX;
      maxLeafIndex := PARTITION_INDEX;
      nextInternalNodeIndex := 0;
      nextLeafNodeIndex := 0;
    }

    /** The pointer updates of a removal: the sibling of the leaf takes the place of their parent. */
    method DetachLeaf(leafIndex: nat, ghost q: nat, ghost isLeft: bool, ghost node: nat, ghost child: nat)
      requires Detachable(internalNodes, leaves, q, isLeft, node, leafIndex, child)
      modifies `root, `internalNodes, `leaves
      ensures Detached(old(internalNodes), old(leaves), q, isLeft, node, leafIndex, child, internalNodes, leaves)
      ensures root == if q == PARTITION_INDEX then child else old(root)
    {
      var parentIndex := leaves[leafIndex].parent;
      leaves := leaves - {leafIndex};
      var parentNode := internalNodes[parentIndex];
      var siblingNodeIndex :=
        if IsLeftChild(parentIndex, MAX_INDEX - leafIndex) then parentNode.right else parentNode.left;
      var grandParentIndex := parentNode.parent;
      if grandParentIndex == PARTITION_INDEX {
        if siblingNodeIndex < PARTITION_INDEX {
          var sibling := internalNodes[siblingNodeIndex];
          internalNodes := internalNodes[siblingNodeIndex := sibling.(parent := PARTITION_INDEX)];
        } else {
          var i := MAX_INDEX - siblingNodeIndex;
          leaves := leaves[i := leaves[i].(parent := PARTITION_INDEX)];
        }
        root := siblingNodeIndex;
      } else {
        var isLeftChild := IsLeftChild(grandParentIndex, parentIndex);
        UpdateRef(grandParentIndex, siblingNodeIndex, isLeftChild);
      }
      internalNodes := internalNodes - {parentIndex};
    }

    /** Deletion of one of several leaves. */
    method RemoveOneOfMany(leafIndex: nat, ghost key: Index)
      requires Valid() && leafIndex in leaves && leaves[leafIndex].key == key && contents.Keys != {key}
      modifies `root, `internalNodes, `leaves, `shape
      ensures Represents(shape, root, internalNodes, leaves) && Keys(shape) == old(Keys(shape)) - {key}
      ensures internalNodes.Keys <= old(internalNodes.Keys) && leaves.Keys == old(leaves.Keys) - {leafIndex}
      ensures forall i | i in leaves :: leaves[i].key == old(leaves)[i].key && leaves[i].value == old(leaves)[i].value
    {
      ghost var c := LeafContext(key, leafIndex);
      ghost var f, t := ForkOver(c, leafIndex, key);
      AroundLeaf(c.up, f, t, leafIndex, key, internalNodes, leaves);
      ghost var root0, nodes0, leaves0 := root, internalNodes, leaves;
      DetachLeaf(leafIndex, ParentOf(c.up), c.up.InLeft?, f.node, IndexOf(t));
      RemoveRepresents(c.up, f, t, leafIndex, key, root0, nodes0, leaves0, internalNodes, leaves);
      shape := Plug(c.up, t);
    }

    lemma ForkOver(c: Context, leaf: nat, key: Index) returns (f: Shape, t: Shape)
      requires Plug(c, Tip(leaf, key)) == shape && Keys(shape) != {key}
      ensures c != Hole && f.Fork? && Plug(c.up, f) == shape
      ensures (f.left == Tip(leaf, key) && t == f.right) || (f.right == Tip(leaf, key) && t == f.left)
    {
      match c
      case Hole => assert false;
      case InLeft(n, b, up, r) => f, t := Fork(n, b, Tip(leaf, key), r), r;
      case InRight(n, b, l, up) => f, t := Fork(n, b, l, Tip(leaf, key)), l;
    }

    /** Deletion from the map the tree stands for; the last leaf resets the tree. */
    method RemoveLeafByIndex(leafIndex: nat) returns (r: Result<V, CritbitTreeError>)
      requires Valid()
      modifies this
      ensures Valid()
      ensures leafIndex !in old(leaves) ==> r == Err(NotFound) && unchanged(this)
      ensures leafIndex in old(leaves) ==>
        var leaf := old(leaves)[leafIndex];
        && r == Ok(leaf.value) && contents == old(contents) - {leaf.key}
        && nextLeafNodeIndex == if contents == map[] then 0 else old(nextLeafNodeIndex)
    {
      if leafIndex !in leaves {
        return Err(NotFound);
      }
      var leaf := leaves[leafIndex];
      var isEmpty, newMin, newMax := ExtremesWithout(leafIndex, leaf.key);
      if isEmpty {
        RemoveLast(leafIndex, leaf.key);
      } else {
        OtherKeysDiffer(leafIndex, leaf.key);
        RemoveOther(leafIndex, leaf.key, newMin, newMax);
        assert leaves[minLeafIndex].key in contents;
      }
      return Ok(leaf.value);
    }

    /** The cached extremes once the leaf is gone, or that no other leaf is left. */
    method ExtremesWithout(leafIndex: nat, key: Index) returns (isEmpty: bool, newMin: nat, newMax: nat)
      requires Valid() && leafIndex in leaves && leaves[leafIndex].key == key
      ensures isEmpty <==> contents.Keys == {key}
      ensures !isEmpty ==> newMin in leaves && newMin != leafIndex && newMax in leaves && newMax != leafIndex
      ensures !isEmpty ==>
        forall i | i in leaves && i != leafIndex :: leaves[newMin].key <= leaves[i].key <= leaves[newMax].key
    {
      OtherKeysDiffer(leafIndex, key);
      ExtremesBound();
      hide Represents;
      isEmpty, newMin, newMax := false, minLeafIndex, maxLeafIndex;
      if minLeafIndex == leafIndex {
        var next := NextLeaf(key);
        if next.value.Some? {
          newMin := next.value.value.1;
        } else {
          isEmpty := true;
        }
      }
      if maxLeafIndex == leafIndex {
        var previous := PreviousLeaf(key);
        if previous.value.Some? {
          newMax := previous.value.value.1;
        } else {
          isEmpty := true;
        }
      }
    }

    lemma OtherKeysDiffer(leafIndex: nat, key: Index)
      requires Valid() && leafIndex in leaves && leaves[leafIndex].key == key
      ensures forall i | i in leaves && i != leafIndex :: leaves[i].key in contents && leaves[i].key != key
    {
      forall i | i in leaves && i != leafIndex ensures leaves[i].key != key {
        var j := ContentsAreLeaves(key);
      }
    }

    lemma ExtremesBound()
      requires Valid() && leaves != map[]
      ensures forall k | k in contents :: leaves[minLeafIndex].key <= k <= leaves[maxLeafIndex].key
    {
      forall k | k in contents ensures leaves[minLeafIndex].key <= k <= leaves[maxLeafIndex].key {
        var j := ContentsAreLeaves(k);
      }
    }

    lemma OnlyLeaf(leafIndex: nat, key: Index)
      requires Valid() && leafIndex in leaves && leaves[leafIndex].key == key && contents.Keys == {key}
      ensures leaves.Keys == {leafIndex} && internalNodes == map[]
    {
      var c := LeafContext(key, leafIndex);
      assert LowerKeys(c) == {} && UpperKeys(c) == {};
      match c
      case Hole =>
      case InLeft(_, _, _, r) => assert FirstKey(r) in UpperKeys(c);
      case InRight(_, _, l, _) => assert FirstKey(l) in LowerKeys(c);
    }

    /** The only leaf goes: the tree is reset. */
    method RemoveLast(leafIndex: nat, ghost key: Index)
      requires Valid() && leafIndex in leaves && leaves[leafIndex].key == key && contents.Keys == {key}
      modifies this
      ensures Valid() && contents == map[]
    {
      OnlyLeaf(leafIndex, key);
      leaves := leaves - {leafIndex};
      Reset();
      contents := map[];
    }

    /** One of several leaves goes, with the new extremes already found. */
    method RemoveOther(leafIndex: nat, ghost key: Index, newMin: nat, newMax: nat)
      requires Grown() && leafIndex in leaves && leaves[leafIndex].key == key && contents.Keys != {key}
      requires newMin in leaves && newMin != leafIndex && newMax in leaves && newMax != leafIndex
      requires forall i | i in leaves && i != leafIndex :: leaves[newMin].key <= leaves[i].key <= leaves[newMax].key
      requires forall i | i in leaves && i != leafIndex :: leaves[i].key != key
      modifies this
      ensures Grown() && contents == old(contents) - {key} && nextLeafNodeIndex == old(nextLeafNodeIndex)
    {
      hide Represents, Keys;
      ghost var leaves0 := leaves;
      RemoveOneOfMany(leafIndex, key);
      hide Holds, IsMin, IsMax;
      EntriesWithout(leaves0, leafIndex, leaves, key, newMin, newMax, contents);
      minLeafIndex, maxLeafIndex, contents := newMin, newMax, contents - {key};
    }
  }

  /** What writing one value does to the entries and the extremes. */
  lemma EntryWith<V>(leaves: LeafMap<V>, leaf: nat, value: V, contents: map<Index, V>)
    requires Holds(contents, leaves) && leaf in leaves
    requires forall i | i in leaves && i != leaf :: leaves[i].key != leaves[leaf].key
    ensures var l := leaves[leaf := leaves[leaf].(value := value)];
      && Holds(contents[leaves[leaf].key := value], l)
      && l.Keys == leaves.Keys && contents[leaves[leaf].key := value].Keys == contents.Keys
      && forall m: nat :: (IsMin(m, leaves) ==> IsMin(m, l)) && (IsMax(m, leaves) ==> IsMax(m, l))
  {
  }

  /** What dropping one leaf does to the entries and the extremes. */
  lemma EntriesWithout<V>(leaves: LeafMap<V>, leaf: nat, l: LeafMap<V>, key: Index, newMin: nat, newMax: nat,
      contents: map<Index, V>)
    requires Holds(contents, leaves) && leaf in leaves && l.Keys == leaves.Keys - {leaf}
    requires forall i | i in l :: l[i].key == leaves[i].key && l[i].value == leaves[i].value && l[i].key != key
    requires newMin in l && newMax in l
    requires forall i | i in leaves && i != leaf :: leaves[newMin].key <= leaves[i].key <= leaves[newMax].key
    ensures Holds(contents - {key}, l) && IsMin(newMin, l) && IsMax(newMax, l)
    ensures l[newMin].key in contents - {key}
  {
  }
}

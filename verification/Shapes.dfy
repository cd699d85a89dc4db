/**
  The shape of a crit-bit tree, as a value.

  A `Shape` is what the index-linked maps of the tree spell out: a leaf with its key, or an internal node
  with the bit it tests and two subtrees. A `Context` is a tree with one subtree taken out; `Plug` puts
  one back. The cursor loops of the tree walk a (context, subtree) pair, so going down, going up and
  splicing at the cursor are all local.
 */
module Shapes {
  import opened Bits

  datatype Shape =
    | Tip(leaf: nat, key: nat)
    | Fork(node: nat, bit: nat, left: Shape, right: Shape)

  datatype Context =
    | Hole
    | InLeft(node: nat, bit: nat, up: Context, right: Shape)
    | InRight(node: nat, bit: nat, left: Shape, up: Context)

  // ---------- what a shape holds ----------

  ghost function Keys(s: Shape): set<nat> {
    match s
    case Tip(_, k) => {k}
    case Fork(_, _, l, r) => Keys(l) + Keys(r)
  }

  ghost function Nodes(s: Shape): set<nat> {
    match s
    case Tip(_, _) => {}
    case Fork(n, _, l, r) => {n} + Nodes(l) + Nodes(r)
  }

  ghost function Leaves(s: Shape): set<nat> {
    match s
    case Tip(i, _) => {i}
    case Fork(_, _, l, r) => Leaves(l) + Leaves(r)
  }

  ghost function FirstKey(s: Shape): (k: nat)
    ensures k in Keys(s)
  {
    match s
    case Tip(_, k) => k
    case Fork(_, _, l, _) => FirstKey(l)
  }

  /** No index occurs twice. */
  ghost predicate Distinct(s: Shape) {
    match s
    case Tip(_, _) => true
    case Fork(n, _, l, r) =>
      && Distinct(l) && Distinct(r)
      && n !in Nodes(l) + Nodes(r)
      && Nodes(l) !! Nodes(r)
      && Leaves(l) !! Leaves(r)
  }

  /** The root of `s` tests a bit below `n`. */
  ghost predicate Below(s: Shape, n: nat) {
    s.Fork? ==> s.bit < n
  }

  /** Every key of `s`, shifted right by `p`, is `h`. */
  ghost predicate Agree(s: Shape, p: nat, h: nat) {
    match s
    case Tip(_, k) => Shr(k, p) == h
    case Fork(_, _, l, r) => Agree(l, p, h) && Agree(r, p, h)
  }

  /**
    The crit-bit property: tested bits strictly decrease downward, and under a node all keys agree above
    its bit, with that bit 0 on the left and 1 on the right.
   */
  ghost predicate Trie(s: Shape) {
    match s
    case Tip(_, _) => true
    case Fork(_, b, l, r) =>
      var h := Shr(FirstKey(l), b + 1);
      && Trie(l) && Trie(r)
      && Below(l, b) && Below(r, b)
      && Agree(l, b, 2 * h) && Agree(r, b, 2 * h + 1)
  }

  // ---------- contexts ----------

  ghost function Plug(c: Context, t: Shape): Shape {
    match c
    case Hole => t
    case InLeft(n, b, up, r) => Plug(up, Fork(n, b, t, r))
    case InRight(n, b, l, up) => Plug(up, Fork(n, b, l, t))
  }

  ghost function LowerKeys(c: Context): set<nat> {
    match c
    case Hole => {}
    case InLeft(_, _, up, _) => LowerKeys(up)
    case InRight(_, _, l, up) => LowerKeys(up) + Keys(l)
  }

  ghost function UpperKeys(c: Context): set<nat> {
    match c
    case Hole => {}
    case InLeft(_, _, up, r) => Keys(r) + UpperKeys(up)
    case InRight(_, _, _, up) => UpperKeys(up)
  }

  ghost function OuterNodes(c: Context): set<nat> {
    match c
    case Hole => {}
    case InLeft(n, _, up, r) => {n} + Nodes(r) + OuterNodes(up)
    case InRight(n, _, l, up) => {n} + Nodes(l) + OuterNodes(up)
  }

  ghost function OuterLeaves(c: Context): set<nat> {
    match c
    case Hole => {}
    case InLeft(_, _, up, r) => Leaves(r) + OuterLeaves(up)
    case InRight(_, _, l, up) => Leaves(l) + OuterLeaves(up)
  }

  /** All nodes above the hole test bit `p` or a higher one. */
  ghost predicate Above(c: Context, p: nat) {
    match c
    case Hole => true
    case InLeft(_, b, up, _) => b >= p && Above(up, p)
    case InRight(_, b, _, up) => b >= p && Above(up, p)
  }

  // ---------- facts about shapes ----------

  lemma {:induction false} AgreeOnKey(s: Shape, p: nat, h: nat, k: nat)
    requires Agree(s, p, h) && k in Keys(s)
    ensures Shr(k, p) == h
  {
    match s
    case Tip(_, _) =>
    case Fork(_, _, l, r) =>
      if k in Keys(l) { AgreeOnKey(l, p, h, k); } else { AgreeOnKey(r, p, h, k); }
  }

  /** Below its tested bit's successor, a trie is uniform. */
  lemma {:induction false} TrieAgrees(s: Shape, p: nat, k: nat)
    requires Trie(s) && Below(s, p) && k in Keys(s)
    ensures Agree(s, p, Shr(k, p))
  {
    match s
    case Tip(_, _) =>
    case Fork(_, b, l, r) =>
      var h := Shr(FirstKey(l), b + 1);
      AgreeShift(l, b, 2 * h, p);
      AgreeShift(r, b, 2 * h + 1, p);
      AgreeOnKey(s, p, ShiftMore(h, p - b - 1), k);
  }

  /** `h >> n`, so that a prefix at bit `b + 1` is a prefix at bit `b + 1 + n`. */
  ghost function ShiftMore(h: nat, n: nat): nat {
    if n == 0 then h else ShiftMore(h, n - 1) / 2
  }

  lemma {:induction false} AgreeShift(s: Shape, b: nat, g: nat, p: nat)
    requires Agree(s, b, g) && b < p
    ensures Agree(s, p, ShiftMore(g / 2, p - b - 1))
  {
    match s
    case Tip(_, k) => ShrShift(k, b, p);
    case Fork(_, _, l, r) => AgreeShift(l, b, g, p); AgreeShift(r, b, g, p);
  }

  lemma {:induction false} ShrShift(k: nat, b: nat, p: nat)
    requires b < p
    ensures Shr(k, p) == ShiftMore(Shr(k, b) / 2, p - b - 1)
    decreases p
  {
    ShrStep(k, p - 1);
    if b + 1 < p {
      ShrShift(k, b, p - 1);
    }
  }

  /** Tips of a trie are ordered: left keys are smaller than right keys. */
  lemma ForkOrders(s: Shape, a: nat, b: nat)
    requires s.Fork? && Trie(s) && a in Keys(s.left) && b in Keys(s.right)
    ensures a < b
  {
    var h := Shr(FirstKey(s.left), s.bit + 1);
    AgreeOnKey(s.left, s.bit, 2 * h, a);
    AgreeOnKey(s.right, s.bit, 2 * h + 1, b);
    BitDecidesOrder(a, b, s.bit);
  }

  lemma {:induction false} IndexCounts(s: Shape)
    requires Distinct(s)
    ensures |Leaves(s)| == |Nodes(s)| + 1
  {
    match s
    case Tip(_, _) =>
    case Fork(_, _, l, r) => IndexCounts(l); IndexCounts(r);
  }

  // ---------- facts about plugging ----------

  lemma {:induction false} PlugHolds(c: Context, t: Shape)
    ensures Keys(Plug(c, t)) == LowerKeys(c) + Keys(t) + UpperKeys(c)
    ensures Nodes(Plug(c, t)) == OuterNodes(c) + Nodes(t)
    ensures Leaves(Plug(c, t)) == OuterLeaves(c) + Leaves(t)
    decreases c
  {
    match c
    case Hole =>
    case InLeft(n, b, up, r) => PlugHolds(up, Fork(n, b, t, r));
    case InRight(n, b, l, up) => PlugHolds(up, Fork(n, b, l, t));
  }

  lemma {:induction false} PlugTrie(c: Context, t: Shape)
    requires Trie(Plug(c, t))
    ensures Trie(t)
    decreases c
  {
    match c
    case Hole =>
    case InLeft(n, b, up, r) => PlugTrie(up, Fork(n, b, t, r));
    case InRight(n, b, l, up) => PlugTrie(up, Fork(n, b, l, t));
  }

  /** Bits above the hole exceed the bits in it. */
  lemma {:induction false} PlugBits(c: Context, t: Shape)
    requires t.Fork? && Trie(Plug(c, t))
    ensures Above(c, t.bit + 1)
    decreases c
  {
    match c
    case Hole =>
    case InLeft(n, b, up, r) =>
      PlugTrie(up, Fork(n, b, t, r));
      PlugBits(up, Fork(n, b, t, r));
      AboveLess(up, b + 1, t.bit + 1);
    case InRight(n, b, l, up) =>
      PlugTrie(up, Fork(n, b, l, t));
      PlugBits(up, Fork(n, b, l, t));
      AboveLess(up, b + 1, t.bit + 1);
  }

  lemma {:induction false} AboveLess(c: Context, p: nat, q: nat)
    requires Above(c, p) && q <= p
    ensures Above(c, q)
  {
    match c
    case Hole =>
    case InLeft(_, _, up, _) => AboveLess(up, p, q);
    case InRight(_, _, _, up) => AboveLess(up, p, q);
  }

  /** The keys in the hole lie between those to its left and those to its right. */
  lemma {:induction false} PlugOrders(c: Context, t: Shape, k: nat)
    requires Trie(Plug(c, t)) && k in Keys(t)
    ensures forall a | a in LowerKeys(c) :: a < k
    ensures forall b | b in UpperKeys(c) :: k < b
    decreases c
  {
    match c
    case Hole =>
    case InLeft(n, b, up, r) =>
      var f := Fork(n, b, t, r);
      PlugTrie(up, f);
      PlugOrders(up, f, k);
      forall x | x in Keys(r) ensures k < x { ForkOrders(f, k, x); }
    case InRight(n, b, l, up) =>
      var f := Fork(n, b, l, t);
      PlugTrie(up, f);
      PlugOrders(up, f, k);
      forall x | x in Keys(l) ensures x < k { ForkOrders(f, x, k); }
  }

  /** Whatever uniform prefix `t` has at bit `p` or above, `t'` has it too. */
  ghost predicate KeepsPrefixes(t: Shape, t': Shape, p: nat) {
    forall q: nat, h: nat :: q >= p && Agree(t, q, h) ==> Agree(t', q, h)
  }

  /** Splicing a subtree that keeps the prefixes keeps the crit-bit property. */
  lemma {:induction false} ReplaceTrie(c: Context, t: Shape, t': Shape, p: nat)
    requires Trie(Plug(c, t)) && Trie(t') && Below(t', p) && Above(c, p)
    requires KeepsPrefixes(t, t', p)
    ensures Trie(Plug(c, t'))
    decreases c
  {
    match c
    case Hole =>
    case InLeft(n, b, up, r) =>
      var f, f' := Fork(n, b, t, r), Fork(n, b, t', r);
      PlugTrie(up, f);
      assert Trie(f') by {
        var h := Shr(FirstKey(t), b + 1);
        AgreeOnKey(t', b, 2 * h, FirstKey(t'));
        ShrStep(FirstKey(t'), b);
      }
      PlugBits(up, f);
      AboveKeepsPrefixes(f, f', p, b + 1);
      ReplaceTrie(up, f, f', b + 1);
    case InRight(n, b, l, up) =>
      var f, f' := Fork(n, b, l, t), Fork(n, b, l, t');
      PlugTrie(up, f);
      assert Trie(f');
      PlugBits(up, f);
      AboveKeepsPrefixes(f, f', p, b + 1);
      ReplaceTrie(up, f, f', b + 1);
  }

  lemma AboveKeepsPrefixes(f: Shape, f': Shape, p: nat, q: nat)
    requires KeepsPrefixes(f, f', p) && p <= q
    ensures KeepsPrefixes(f, f', q)
  {
  }

  lemma {:induction false} PlugDistinct(c: Context, t: Shape)
    requires Distinct(Plug(c, t))
    ensures Distinct(t) && OuterNodes(c) !! Nodes(t) && OuterLeaves(c) !! Leaves(t)
    decreases c
  {
    match c
    case Hole =>
    case InLeft(n, b, up, r) => PlugDistinct(up, Fork(n, b, t, r));
    case InRight(n, b, l, up) => PlugDistinct(up, Fork(n, b, l, t));
  }

  lemma {:induction false} ReplaceDistinct(c: Context, t: Shape, t': Shape)
    requires Distinct(Plug(c, t)) && Distinct(t')
    requires OuterNodes(c) !! Nodes(t') && OuterLeaves(c) !! Leaves(t')
    ensures Distinct(Plug(c, t'))
    decreases c
  {
    match c
    case Hole =>
    case InLeft(n, b, up, r) =>
      PlugDistinct(up, Fork(n, b, t, r));
      ReplaceDistinct(up, Fork(n, b, t, r), Fork(n, b, t', r));
    case InRight(n, b, l, up) =>
      PlugDistinct(up, Fork(n, b, l, t));
      ReplaceDistinct(up, Fork(n, b, l, t), Fork(n, b, l, t'));
  }

  // ---------- searching by bits ----------

  /** Where following the bits of `key` ends. */
  ghost function Closest(s: Shape, key: nat): (t: Shape)
    ensures t.Tip?
  {
    match s
    case Tip(_, _) => s
    case Fork(_, b, l, r) => if Bit(key, b) == 0 then Closest(l, key) else Closest(r, key)
  }

  lemma {:induction false} ClosestIsPresent(s: Shape, key: nat)
    ensures Closest(s, key).key in Keys(s) && Closest(s, key).leaf in Leaves(s)
  {
    match s
    case Tip(_, _) =>
    case Fork(_, _, l, r) => ClosestIsPresent(l, key); ClosestIsPresent(r, key);
  }

  /** A key that is present is found by its bits. */
  lemma {:induction false} ClosestFinds(s: Shape, key: nat)
    requires Trie(s) && key in Keys(s)
    ensures Closest(s, key).key == key
  {
    match s
    case Tip(_, _) =>
    case Fork(_, b, l, r) =>
      var h := Shr(FirstKey(l), b + 1);
      if key in Keys(l) {
        AgreeOnKey(l, b, 2 * h, key);
        ClosestFinds(l, key);
      } else {
        AgreeOnKey(r, b, 2 * h + 1, key);
        ClosestFinds(r, key);
      }
  }
}

/**
  The order book: price levels under their prices.

  `Book` is the reference: a plain map from price to level. The methods below are the source's `OrderBook`
  operations on a crit-bit tree of levels; each is shown to do on the tree what the function of the same
  subject does on the plain map. The one trace the tree's representation leaves is `created`, the number of
  levels created since the book was last empty, which is bounded by the index capacity.
 */
module OrderBook {
  import opened Bits
  import opened Critbit
  import opened Ticks
  import opened Wrappers

  type Levels = map<Index, Tick>

  datatype Book = Book(levels: Levels, created: nat)

  // ---------- extremes of a set of prices ----------

  ghost predicate IsLowest(k: Index, s: set<Index>) {
    k in s && forall x | x in s :: k <= x
  }

  ghost predicate IsHighest(k: Index, s: set<Index>) {
    k in s && forall x | x in s :: x <= k
  }

  lemma {:induction false} LowestExists(s: set<Index>)
    requires s != {}
    ensures exists k :: IsLowest(k, s)
  {
    var m :| m in s;
    if IsLowest(m, s) {
      return;
    }
    var w :| w in s && w < m;
    assert w in s - {m};
    LowestExists(s - {m});
    var k :| IsLowest(k, s - {m});
    assert forall x | x in s :: x == m || x in s - {m};
    assert IsLowest(k, s);
  }

  lemma {:induction false} HighestExists(s: set<Index>)
    requires s != {}
    ensures exists k :: IsHighest(k, s)
  {
    var m :| m in s;
    if IsHighest(m, s) {
      return;
    }
    var w :| w in s && w > m;
    assert w in s - {m};
    HighestExists(s - {m});
    var k :| IsHighest(k, s - {m});
    assert forall x | x in s :: x == m || x in s - {m};
    assert IsHighest(k, s);
  }

  ghost function Lowest(s: set<Index>): (k: Index)
    requires s != {}
    ensures IsLowest(k, s)
  {
    LowestExists(s);
    var k :| IsLowest(k, s);
    k
  }

  ghost function Highest(s: set<Index>): (k: Index)
    requires s != {}
    ensures IsHighest(k, s)
  {
    HighestExists(s);
    var k :| IsHighest(k, s);
    k
  }

  /** The price a taker meets first: the lowest ask, or the highest bid. */
  ghost function Best(levels: Levels, asks: bool): Option<Index> {
    if levels == map[] then None
    else if asks then Some(Lowest(levels.Keys)) else Some(Highest(levels.Keys))
  }

  // ---------- the reference book ----------

  function PlaceIn(b: Book, id: OrderId, owner: AccountId, price: Index, quantity: nat)
    : Result<Book, CritbitTreeError>
  {
    var order := Order(id, owner, quantity);
    if price in b.levels then
      Ok(b.(levels := b.levels[price := Tick(Placed(b.levels[price].openOrders, order))]))
    else if b.created >= CAPACITY then
      Err(ExceedCapacity)
    else
      Ok(Book(b.levels[price := Tick([order])], b.created + 1))
  }

  function Without(b: Book, price: Index): Book {
    var levels := b.levels - {price};
    Book(levels, if levels == map[] then 0 else b.created)
  }

  /** A level that is left without orders goes. */
  function FillIn(b: Book, price: Index, quantity: nat): Book {
    if price !in b.levels then b
    else
      var rest := Rest(b.levels[price].openOrders, quantity);
      if rest == [] then Without(b, price) else b.(levels := b.levels[price := Tick(rest)])
  }

  function FillsAt(b: Book, price: Index, quantity: nat): Option<seq<Fill>> {
    if price !in b.levels then None
    else
      var fills := Fills(b.levels[price].openOrders, quantity);
      if SumFills(fills) == 0 then None else Some(fills)
  }

  /** A level that a cancellation leaves without orders stays. */
  function CancelIn(b: Book, owner: AccountId, price: Index, id: OrderId, quantity: nat)
    : Result<Book, CritbitTreeError>
  {
    if price !in b.levels then Err(NotFound)
    else
      match Canceled(b.levels[price].openOrders, owner, id, quantity)
      case Ok(left) => Ok(b.(levels := b.levels[price := Tick(left)]))
      case Err(_) => Err(ValueOps)
  }

  // ---------- the book on a crit-bit tree ----------

  ghost function BookOf(tree: CritbitTree<Tick>): Book
    reads tree
  {
    Book(tree.contents, tree.nextLeafNodeIndex)
  }

  /** A best price as the tree reports it: with the index of the leaf that holds it. */
  ghost predicate BestLeaf(tree: CritbitTree<Tick>, asks: bool, r: Option<(Index, nat)>)
    reads tree
  {
    match r
    case None => Best(tree.contents, asks) == None
    case Some((price, leaf)) =>
      && Best(tree.contents, asks) == Some(price)
      && leaf in tree.leaves && tree.leaves[leaf].key == price && tree.leaves[leaf].value == tree.contents[price]
  }

  method MinOrder(tree: CritbitTree<Tick>) returns (r: Option<(Index, nat)>)
    requires tree.Valid()
    ensures BestLeaf(tree, true, r)
  {
    hide CritbitTree.Valid;
    r := tree.MinLeaf();
    if r.Some? {
      ghost var i := tree.ContentsAreLeaves(r.value.0);
    }
  }

  method MaxOrder(tree: CritbitTree<Tick>) returns (r: Option<(Index, nat)>)
    requires tree.Valid()
    ensures BestLeaf(tree, false, r)
  {
    hide CritbitTree.Valid;
    r := tree.MaxLeaf();
    if r.Some? {
      ghost var i := tree.ContentsAreLeaves(r.value.0);
    }
  }

  function PriceIn(best: Option<(Index, nat)>): Option<Index> {
    if best.Some? then Some(best.value.0) else None
  }

  method OpenOrdersAt(tree: CritbitTree<Tick>, price: Index) returns (r: Option<Tick>)
    requires tree.Valid()
    ensures r == if price in tree.contents then Some(tree.contents[price]) else None
  {
    var found := FindLevel(tree, price);
    r := if found.Some? then Some(tree.leaves[found.value].value) else None;
  }

  method FindLevel(tree: CritbitTree<Tick>, price: Index) returns (r: Option<nat>)
    requires tree.Valid()
    ensures r.Some? <==> price in tree.contents
    ensures r.Some? ==> r.value in tree.leaves && tree.leaves[r.value].key == price
    ensures r.Some? ==> tree.leaves[r.value].value == tree.contents[price]
  {
    r := tree.FindLeaf(price);
    if r.Some? {
      ghost var i := tree.ContentsAreLeaves(price);
    }
  }

  /** On failure the tree is left as it stands, for the caller's transaction to discard. */
  method PlaceOrder(tree: CritbitTree<Tick>, id: OrderId, owner: AccountId, price: Index, quantity: nat)
    returns (r: Result<(), CritbitTreeError>)
    requires tree.Valid()
    modifies tree
    ensures match PlaceIn(old(BookOf(tree)), id, owner, price, quantity)
      case Ok(b) => r == Ok(()) && tree.Valid() && BookOf(tree) == b
      case Err(e) => r == Err(e)
  {
    var found := FindLevel(tree, price);
    if found.Some? {
      var tick := tree.leaves[found.value].value;
      tree.SetValue(found.value, Tick(Placed(tick.openOrders, Order(id, owner, quantity))));
      return Ok(());
    }
    r := tree.Insert(price, Tick([Order(id, owner, quantity)]));
  }

  method FillOrder(tree: CritbitTree<Tick>, price: Index, quantity: nat) returns (r: Option<seq<Fill>>)
    requires tree.Valid()
    modifies tree
    ensures tree.Valid() && BookOf(tree) == FillIn(old(BookOf(tree)), price, quantity)
    ensures r == FillsAt(old(BookOf(tree)), price, quantity)
  {
    var found := FindLevel(tree, price);
    if found.None? {
      return None;
    }
    var tick, fills := Filled(tree.leaves[found.value].value, quantity);
    tree.SetValue(found.value, tick);
    if tick.openOrders == [] {
      var removed := tree.RemoveLeafByIndex(found.value);
      assert tree.contents == old(tree.contents) - {price};
    }
    return fills;
  }

  method CancelOrder(tree: CritbitTree<Tick>, owner: AccountId, price: Index, id: OrderId, quantity: nat)
    returns (r: Result<(), CritbitTreeError>)
    requires tree.Valid()
    modifies tree
    ensures match CancelIn(old(BookOf(tree)), owner, price, id, quantity)
      case Ok(b) => r == Ok(()) && tree.Valid() && BookOf(tree) == b
      case Err(e) => r == Err(e) && unchanged(tree)
  {
    var found := FindLevel(tree, price);
    if found.None? {
      return Err(NotFound);
    }
    var left := Canceled(tree.leaves[found.value].value.openOrders, owner, id, quantity);
    if left.Err? {
      return Err(ValueOps);
    }
    tree.SetValue(found.value, Tick(left.value));
    return Ok(());
  }

  // ---------- whole runs ----------

  datatype Command =
    | Place(id: OrderId, owner: AccountId, price: Index, quantity: nat)
    | FillUp(price: Index, quantity: nat)
    | Cancel(owner: AccountId, price: Index, id: OrderId, quantity: nat)

  /** What a caller can see of a command: its outcome, and the book's best prices and the level it named. */
  datatype Answer = Answer(outcome: Result<Option<seq<Fill>>, CritbitTreeError>,
                           lowest: Option<Index>, highest: Option<Index>, level: Option<Tick>)

  /** One command on the reference book; a failed command changes nothing. */
  function Step(b: Book, c: Command): (Book, Result<Option<seq<Fill>>, CritbitTreeError>) {
    match c
    case Place(id, owner, price, quantity) =>
      (match PlaceIn(b, id, owner, price, quantity)
       case Ok(b') => (b', Ok(None))
       case Err(e) => (b, Err(e)))
    case FillUp(price, quantity) =>
      (FillIn(b, price, quantity), Ok(FillsAt(b, price, quantity)))
    case Cancel(owner, price, id, quantity) =>
      (match CancelIn(b, owner, price, id, quantity)
       case Ok(b') => (b', Ok(None))
       case Err(e) => (b, Err(e)))
  }

  ghost function AnswerOf(b: Book, c: Command): Answer {
    var (b', outcome) := Step(b, c);
    Answer(outcome, Best(b'.levels, true), Best(b'.levels, false),
           if c.price in b'.levels then Some(b'.levels[c.price]) else None)
  }

  ghost function Run(b: Book, cs: seq<Command>): Book {
    if cs == [] then b else Step(Run(b, cs[..|cs| - 1]), cs[|cs| - 1]).0
  }

  ghost function Answers(b: Book, cs: seq<Command>): seq<Answer> {
    if cs == [] then []
    else Answers(b, cs[..|cs| - 1]) + [AnswerOf(Run(b, cs[..|cs| - 1]), cs[|cs| - 1])]
  }

  /** One command on the tree, inside a transaction. */
  method Execute(tree: CritbitTree<Tick>, c: Command) returns (a: Answer)
    requires tree.Valid()
    modifies tree
    ensures tree.Valid() && BookOf(tree) == Step(old(BookOf(tree)), c).0
    ensures a == AnswerOf(old(BookOf(tree)), c)
  {
    hide CritbitTree.Valid, PlaceIn, FillIn, FillsAt, CancelIn, Best;
    var outcome;
    match c {
      case Place(id, owner, price, quantity) =>
        var saved := tree.Save();
        var placed := PlaceOrder(tree, id, owner, price, quantity);
        if placed.Err? {
          tree.Restore(saved);
          SameStateSameValidity(tree);
        }
        outcome := if placed.Ok? then Ok(None) else Err(placed.error);
      case FillUp(price, quantity) =>
        var fills := FillOrder(tree, price, quantity);
        outcome := Ok(fills);
      case Cancel(owner, price, id, quantity) =>
        var canceled := CancelOrder(tree, owner, price, id, quantity);
        outcome := if canceled.Ok? then Ok(None) else Err(canceled.error);
    }
    var lowest := MinOrder(tree);
    var highest := MaxOrder(tree);
    var level := OpenOrdersAt(tree, c.price);
    a := Answer(outcome, PriceIn(lowest), PriceIn(highest), level);
  }

  /** A tree restored to an earlier state is as valid as it was then. */
  twostate lemma SameStateSameValidity(tree: CritbitTree<Tick>)
    requires old(tree.Valid()) && tree.State() == old(tree.State())
    ensures tree.Valid() && BookOf(tree) == old(BookOf(tree))
  {
  }

  /** Every run of commands on a new tree answers as the same run on the plain map. */
  method Replay(cs: seq<Command>) returns (answers: seq<Answer>)
    ensures answers == Answers(Book(map[], 0), cs)
  {
    var tree := new CritbitTree<Tick>();
    answers := [];
    for i := 0 to |cs|
      invariant tree.Valid() && fresh(tree)
      invariant BookOf(tree) == Run(Book(map[], 0), cs[..i])
      invariant answers == Answers(Book(map[], 0), cs[..i])
    {
      assert cs[..i + 1][..i] == cs[..i];
      var a := Execute(tree, cs[i]);
      answers := answers + [a];
    }
    assert cs[..|cs|] == cs;
  }
}

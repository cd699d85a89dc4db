/** What holds in every reachable market, over every run of calls. */
module MarketSafety {
  import Amm
  import opened Bits
  import opened Errors
  import opened Freezes
  import opened Ledgers
  import opened Liquidity
  import opened Markets
  import opened Matching
  import opened OrderBook
  import opened SwapSearch
  import opened Ticks
  import opened Wrappers

  // ---------- the order books ----------

  /** Ids of a level ascend from `lo` on, all issued already, and at most its oldest order is spent. */
  ghost predicate LevelOk(orders: seq<Order>, lo: OrderId, next: OrderId) {
    && Ascending(orders) && Tidy(orders)
    && forall id | id in Ids(orders) :: lo <= id < next
  }

  /** Every level is in order, and no id rests at two prices. */
  ghost predicate SideOk(levels: Levels, lo: OrderId, next: OrderId) {
    && (forall p | p in levels :: LevelOk(levels[p].openOrders, lo, next))
    && (forall p, q | p in levels && q in levels && p != q :: Ids(levels[p].openOrders) !! Ids(levels[q].openOrders))
  }

  /** Replacing a level by one whose ids it already had keeps a side in order. */
  lemma ShrinkLevel(levels: Levels, lo: OrderId, next: OrderId, p: Index, orders: seq<Order>)
    requires SideOk(levels, lo, next) && p in levels
    requires Ascending(orders) && Tidy(orders) && Ids(orders) <= Ids(levels[p].openOrders)
    ensures SideOk(levels[p := Tick(orders)], lo, next)
  {
    hide Ascending, Tidy, Ids;
  }

  lemma FillKeepsSide(book: Book, lo: OrderId, next: OrderId, price: Index, quantity: nat)
    requires SideOk(book.levels, lo, next)
    ensures SideOk(FillIn(book, price, quantity).levels, lo, next)
  {
    if price in book.levels {
      var orders := book.levels[price].openOrders;
      FillKeepsOrder(orders, quantity);
      if Ticks.Rest(orders, quantity) != [] {
        ShrinkLevel(book.levels, lo, next, price, Ticks.Rest(orders, quantity));
      }
    }
  }

  lemma MatchKeepsSide(isBid: bool, c: Config, desk: Desk, remain: nat, lo: OrderId, next: OrderId)
    requires SideOk(desk.book.levels, lo, next)
    ensures MatchFrom(isBid, c, desk, remain).Ok? ==>
      SideOk(MatchFrom(isBid, c, desk, remain).value.book.levels, lo, next)
  {
    hide PoolLeg, FillIn, MatchFrom, SideOk;
    var kept := (d: Desk) => SideOk(d.book.levels, lo, next);
    forall d: Desk, q: nat | kept(d) && PoolLeg(isBid, c, d, q).Ok? ensures kept(PoolLeg(isBid, c, d, q).value) {
      PoolLegKeepsBook(isBid, c, d, q);
    }
    forall d: Desk, p: Index, q: nat | kept(d) && p in d.book.levels && q > 0 ensures kept(BookLeg(d, p, q)) {
      FillKeepsSide(d.book, lo, next, p, q);
    }
    MatchKeeps(isBid, c, desk, remain, kept);
  }

  lemma CancelKeepsSide(book: Book, lo: OrderId, next: OrderId, owner: AccountId, price: Index, id: OrderId,
      quantity: nat)
    requires SideOk(book.levels, lo, next) && CancelIn(book, owner, price, id, quantity).Ok?
    ensures SideOk(CancelIn(book, owner, price, id, quantity).value.levels, lo, next)
  {
    var orders := book.levels[price].openOrders;
    CancelKeepsOrder(orders, owner, id, quantity);
    ShrinkLevel(book.levels, lo, next, price, Canceled(orders, owner, id, quantity).value);
  }

  lemma LaterBound(levels: Levels, lo: OrderId, next: OrderId)
    requires SideOk(levels, lo, next)
    ensures SideOk(levels, lo, next + 1)
  {
  }

  /** A newly issued id goes behind all others at its price. */
  lemma PlacedLevelOk(orders: seq<Order>, lo: OrderId, id: OrderId, owner: AccountId, quantity: nat)
    requires LevelOk(orders, lo, id) && lo <= id && quantity > 0
    ensures Placed(orders, Order(id, owner, quantity)) == orders + [Order(id, owner, quantity)]
    ensures LevelOk(orders + [Order(id, owner, quantity)], lo, id + 1)
    ensures Ids(orders + [Order(id, owner, quantity)]) == Ids(orders) + {id}
  {
    var order := Order(id, owner, quantity);
    forall i | 0 <= i < |orders| ensures orders[i].id < id {
      assert orders[i].id in Ids(orders);
    }
    PlacedAppends(orders, order);
    var all := orders + [order];
    assert forall i | 0 <= i < |orders| :: all[i] == orders[i];
    assert all[|orders|] == order;
    assert Ids(all) == Ids(orders) + {id};
  }

  /** Replacing or adding a level that has one new id keeps a side in order. */
  lemma GrowLevel(levels: Levels, lo: OrderId, id: OrderId, p: Index, orders: seq<Order>)
    requires SideOk(levels, lo, id) && LevelOk(orders, lo, id + 1)
    requires Ids(orders) == (if p in levels then Ids(levels[p].openOrders) else {}) + {id}
    ensures SideOk(levels[p := Tick(orders)], lo, id + 1)
  {
    LaterBound(levels, lo, id);
    forall q | q in levels ensures id !in Ids(levels[q].openOrders) {
      assert LevelOk(levels[q].openOrders, lo, id);
    }
    hide LevelOk, Ids;
  }

  lemma PlaceKeepsSide(book: Book, lo: OrderId, id: OrderId, owner: AccountId, price: Index, quantity: nat)
    requires SideOk(book.levels, lo, id) && lo <= id && quantity > 0
    requires PlaceIn(book, id, owner, price, quantity).Ok?
    ensures SideOk(PlaceIn(book, id, owner, price, quantity).value.levels, lo, id + 1)
  {
    var orders := if price in book.levels then book.levels[price].openOrders else [];
    PlacedLevelOk(orders, lo, id, owner, quantity);
    assert [] + [Order(id, owner, quantity)] == [Order(id, owner, quantity)];
    GrowLevel(book.levels, lo, id, price, orders + [Order(id, owner, quantity)]);
    hide LevelOk, SideOk, Ids, Placed;
  }

  // ---------- freezes ----------

  function SideOf(m: Market, asks: bool): Book {
    if asks then m.asks else m.bids
  }

  /** What an account has frozen on one side beyond what its resting orders there need. */
  ghost function Spare(c: Config, m: Market, asks: bool, who: AccountId): int {
    FrozenOf(m.ledger, who, FrozenAsset(asks)) - BookNeed(asks, c.decimals, SideOf(m, asks).levels, who)
  }

  /** Every account has frozen at least what its resting orders need. */
  ghost predicate FreezesOk(c: Config, m: Market) {
    forall asks, who :: Spare(c, m, asks, who) >= 0
  }

  /** From `m` to `m'` nobody's spare freeze shrinks. */
  ghost predicate SpareKept(c: Config, m: Market, m': Market) {
    forall asks, who :: Spare(c, m, asks, who) <= Spare(c, m', asks, who)
  }

  /** A cancellation frees exactly the difference between the order's need before and after. */
  lemma CancelFreesNeed(asks: bool, d: Decimals, price: Index, orders: seq<Order>, owner: AccountId, id: OrderId,
      quantity: nat, who: AccountId)
    requires Canceled(orders, owner, id, quantity).Ok?
    ensures var all := orders[Position(orders, id)].quantity;
      OrdersNeed(asks, d, price, Canceled(orders, owner, id, quantity).value, who)
      == OrdersNeed(asks, d, price, orders, who)
       - (if who == owner then Need(asks, d, price, all) - Need(asks, d, price, all - quantity) else 0)
  {
    var i := Position(orders, id);
    var left := Canceled(orders, owner, id, quantity).value;
    OrdersNeedAppend(asks, d, price, orders[..i], orders[i..], who);
    assert orders == orders[..i] + orders[i..] && orders[i..][1..] == orders[i + 1..];
    OrdersNeedAppend(asks, d, price, orders[..i], left[i..], who);
    assert left == orders[..i] + left[i..];
    NeedOfParts(asks, d, price, orders[i].quantity - quantity, quantity);
    if orders[i].quantity == quantity {
      assert left[i..] == orders[i + 1..];
    } else {
      assert left[i..][1..] == orders[i + 1..];
    }
    hide Need;
  }

  /** What a cancellation of `quantity` of an order of `all` stops needing: it stays frozen. */
  ghost function Stranded(c: Config, asks: bool, price: nat, all: nat, quantity: nat): int
    requires quantity <= all
  {
    Need(asks, c.decimals, price, all) - Need(asks, c.decimals, price, all - quantity)
  }

  /** A cancellation moves no funds, so what it stops needing becomes spare. */
  lemma CancelAddsSpare(c: Config, m: Market, owner: AccountId, price: Index, id: OrderId, quantity: nat,
      asks: bool, who: AccountId)
    requires CancelOnSide(m, owner, price, id, quantity).Ok?
    ensures var side := !IsBidId(id);
      && price in SideOf(m, side).levels
      && var orders := SideOf(m, side).levels[price].openOrders;
      && Canceled(orders, owner, id, quantity).Ok?
      && var stranded := Stranded(c, side, price, orders[Position(orders, id)].quantity, quantity);
      && stranded >= 0
      && Spare(c, CancelOnSide(m, owner, price, id, quantity).value, asks, who)
         == Spare(c, m, asks, who) + (if who == owner && asks == side then stranded else 0)
  {
    var side := !IsBidId(id);
    hide IsBidId;
    var levels := SideOf(m, side).levels;
    var orders := levels[price].openOrders;
    var left := Canceled(orders, owner, id, quantity).value;
    var all := orders[Position(orders, id)].quantity;
    CancelFreesNeed(side, c.decimals, price, orders, owner, id, quantity, who);
    NeedOfParts(side, c.decimals, price, all - quantity, quantity);
    BookNeedUpdate(side, c.decimals, levels, price, Tick(left), who);
    hide BookNeed, OrdersNeed, Need, Canceled;
  }

  /** A placed order needs what was frozen for it, and the others what they needed before. */
  lemma PlaceNeeds(asks: bool, d: Decimals, book: Book, lo: OrderId, id: OrderId, owner: AccountId, price: Index,
      quantity: nat, who: AccountId)
    requires SideOk(book.levels, lo, id) && lo <= id && quantity > 0
    requires PlaceIn(book, id, owner, price, quantity).Ok?
    ensures BookNeed(asks, d, PlaceIn(book, id, owner, price, quantity).value.levels, who)
         == BookNeed(asks, d, book.levels, who) + (if who == owner then Need(asks, d, price, quantity) else 0)
  {
    var orders := if price in book.levels then book.levels[price].openOrders else [];
    var order := Order(id, owner, quantity);
    PlacedLevelOk(orders, lo, id, owner, quantity);
    assert [] + [order] == [order];
    OrdersNeedAppend(asks, d, price, orders, [order], who);
    BookNeedUpdate(asks, d, book.levels, price, Tick(orders + [order]), who);
    assert PlaceIn(book, id, owner, price, quantity).value.levels == book.levels[price := Tick(orders + [order])];
    assert [order][1..] == [];
    hide Need, BookNeed, Placed;
  }

  lemma FreezeAdds(l: Ledger, who: AccountId, a: Asset, amount: nat, whose: AccountId, b: Asset)
    requires Freeze(l, who, a, amount).Ok?
    ensures FrozenOf(Freeze(l, who, a, amount).value, whose, b)
         == FrozenOf(l, whose, b) + (if who == whose && a == b then amount else 0)
  {
  }

  lemma PoolLegKeepsFrozen(isBid: bool, c: Config, desk: Desk, quantity: nat, whose: AccountId, b: Asset)
    requires PoolLeg(isBid, c, desk, quantity).Ok?
    ensures FrozenOf(PoolLeg(isBid, c, desk, quantity).value.ledger, whose, b) == FrozenOf(desk.ledger, whose, b)
  {
    hide FillPool, PaySwap, FrozenOf;
    var swap := FillPool(isBid, c, desk.pool, quantity).value.1;
    PayKeepsFrozen(isBid, desk.ledger, desk.taker, desk.taker, swap, whose, b);
  }

  lemma MatchKeepsFrozen(isBid: bool, c: Config, desk: Desk, remain: nat, whose: AccountId, b: Asset)
    ensures MatchFrom(isBid, c, desk, remain).Ok? ==>
      FrozenOf(MatchFrom(isBid, c, desk, remain).value.ledger, whose, b) == FrozenOf(desk.ledger, whose, b)
  {
    hide PoolLeg, MatchFrom, FrozenOf;
    var kept := (d: Desk) => FrozenOf(d.ledger, whose, b) == FrozenOf(desk.ledger, whose, b);
    forall d: Desk, q: nat | kept(d) && PoolLeg(isBid, c, d, q).Ok? ensures kept(PoolLeg(isBid, c, d, q).value) {
      PoolLegKeepsFrozen(isBid, c, d, q, whose, b);
    }
    MatchKeeps(isBid, c, desk, remain, kept);
  }

  /** The trades' releases are covered, and a match releases no more than the books stop needing. */
  lemma MatchKeepsSpare(c: Config, m: Market, isBid: bool, orderer: AccountId, quantity: nat)
    requires FreezesOk(c, m)
    ensures MatchOrder(c, m, isBid, orderer, quantity) != Err(FrozenUnderflow)
    ensures MatchOrder(c, m, isBid, orderer, quantity).Ok? ==>
      SpareKept(c, m, MatchOrder(c, m, isBid, orderer, quantity).value)
  {
    hide MatchFrom, BookNeed, TradesNeed, FrozenOf, Settle;
    var desk := DeskOf(m, isBid, orderer);
    var matched := MatchFrom(isBid, c, desk, quantity);
    MatchingErrors(isBid, c, desk, quantity);
    if matched.Err? {
      return;
    }
    var after := matched.value;
    forall who
      ensures FrozenOf(after.ledger, who, BaseAsset) == FrozenOf(m.ledger, who, BaseAsset)
      ensures FrozenOf(after.ledger, who, QuoteAsset) == FrozenOf(m.ledger, who, QuoteAsset)
    {
      MatchKeepsFrozen(isBid, c, desk, quantity, who, BaseAsset);
      MatchKeepsFrozen(isBid, c, desk, quantity, who, QuoteAsset);
    }
    forall who
      ensures TradesNeed(isBid, c.decimals, after.trades, who) + BookNeed(isBid, c.decimals, after.book.levels, who)
           <= BookNeed(isBid, c.decimals, SideOf(m, isBid).levels, who)
           <= FrozenOf(after.ledger, who, FrozenAsset(isBid))
    {
      MatchReleasesWithinNeed(isBid, isBid, c, desk, quantity, who);
      assert TradesNeed(isBid, c.decimals, [], who) == 0 by { NoTradesNoNeed(isBid, c.decimals, who); }
      assert Spare(c, m, isBid, who) >= 0;
    }
    SettleReleases(isBid, c.decimals, after.ledger, orderer, after.trades);
    var settling := Settle(isBid, c.decimals, after.ledger, orderer, after.trades);
    if settling.Ok? {
      var m' := MatchOrder(c, m, isBid, orderer, quantity).value;
      forall asks, who ensures Spare(c, m, asks, who) <= Spare(c, m', asks, who) {
        assert Released(isBid, c.decimals, after.ledger, settling.value, after.trades, who);
      }
    }
  }

  lemma NoTradesNoNeed(asks: bool, d: Decimals, who: AccountId)
    ensures TradesNeed(asks, d, [], who) == 0
  {
  }

  /** How pool, prices and withdrawals fail: never for a freeze, nor for the price or the quantity of an order. */
  predicate EngineError(e: MarketError) {
    e.Trap? || e.Refused? || e.PoolRefused? || e.LedgerRefused?
  }

  lemma {:induction false} MatchingErrors(isBid: bool, c: Config, desk: Desk, remain: nat)
    ensures MatchFrom(isBid, c, desk, remain).Err? ==> EngineError(MatchFrom(isBid, c, desk, remain).error)
    decreases |desk.book.levels|, remain
  {
    hide PoolLeg;
    if remain > 0 {
      PoolLegErrors(isBid, c, desk, remain);
      var best := Best(desk.book.levels, isBid);
      if best.Some? {
        var swap := MaxSwap(isBid, best.value, c.decimals, c.terms.fee, desk.pool.base, desk.pool.quote, remain);
        MaxSwapErrors(isBid, best.value, c, desk.pool, remain);
        hide MaxSwap;
        if swap.Ok? && swap.value < remain {
          PoolLegErrors(isBid, c, desk, swap.value);
          var turn := Turn(isBid, c, desk, best.value, swap.value, remain);
          if turn.Ok? {
            TurnShrinks(isBid, c, desk, best.value, swap.value, remain);
            MatchingErrors(isBid, c, turn.value.0, turn.value.1);
          }
        }
      }
    }
  }

  lemma PoolLegErrors(isBid: bool, c: Config, desk: Desk, quantity: nat)
    ensures PoolLeg(isBid, c, desk, quantity).Err? ==> EngineError(PoolLeg(isBid, c, desk, quantity).error)
  {
    hide SwapExactIn, SwapExactOut;
  }

  lemma MaxSwapErrors(isBid: bool, target: nat, c: Config, pool: Pool, remain: nat)
    ensures var s := MaxSwap(isBid, target, c.decimals, c.terms.fee, pool.base, pool.quote, remain);
      s.Err? ==> EngineError(s.error)
  {
    if pool.base > 0 && pool.quote > 0 {
      SearchErrors(isBid, target, c.decimals, c.terms.fee, pool.base, pool.quote, Search(0, remain, 0));
    }
  }

  lemma {:induction false} SearchErrors(isBid: bool, target: nat, d: Decimals, fee: Amm.Fee, base: nat,
      quote: nat, s: Search)
    ensures SearchFrom(isBid, target, d, fee, base, quote, s).Err? ==>
      EngineError(SearchFrom(isBid, target, d, fee, base, quote, s).error)
    decreases s.max - s.min
  {
    if s.min < s.max {
      SearchRound(isBid, target, d, fee, base, quote, s);
      var probe, unit := ProbePrice(isBid, d, fee, base, quote, Mid(s)), Normalize(1, d.base);
      assert (probe.Err? ==> EngineError(probe.error)) && (unit.Err? ==> EngineError(unit.error));
      if probe.Ok? && unit.Ok? {
        var next := Narrow(isBid, s, Mid(s), probe.value < target, unit.value);
        assert next.Err? ==> EngineError(next.error);
        if next.Ok? {
          SearchErrors(isBid, target, d, fee, base, quote, next.value);
        }
      }
    }
  }

  // ---------- every reachable market ----------

  /** The counters stay inside their halves of the id space. */
  ghost predicate CountersOk(m: Market) {
    m.nextBid < ASK_ID_START <= m.nextAsk < U64_MAX
  }

  ghost predicate BooksOk(m: Market) {
    SideOk(m.bids.levels, 0, m.nextBid) && SideOk(m.asks.levels, ASK_ID_START, m.nextAsk)
  }

  /** The accounts' shares and the locked ones are all the shares there are. */
  ghost predicate SharesOk(m: Market) {
    Sum(m.shares) + (if m.pool.supply == 0 then 0 else MINT_MIN_LIQUIDITY) == m.pool.supply
  }

  /** The safety invariant. */
  ghost predicate Sound(c: Config, m: Market) {
    CountersOk(m) && BooksOk(m) && FreezesOk(c, m) && Backed(m.pool) && SharesOk(m)
  }

  /** `m'` is sound and no spare freeze got smaller on the way there from `m`. */
  ghost predicate KeptSound(c: Config, m: Market, m': Market) {
    Sound(c, m') && SpareKept(c, m, m')
  }

  lemma MatchKeepsSound(c: Config, m: Market, isBid: bool, orderer: AccountId, quantity: nat)
    requires Sound(c, m)
    ensures MatchOrder(c, m, isBid, orderer, quantity) != Err(FrozenUnderflow)
    ensures MatchOrder(c, m, isBid, orderer, quantity).Ok? ==>
      KeptSound(c, m, MatchOrder(c, m, isBid, orderer, quantity).value)
  {
    MatchKeepsSpare(c, m, isBid, orderer, quantity);
    hide MatchFrom, SideOk, Spare, Settle;
    if MatchOrder(c, m, isBid, orderer, quantity).Ok? {
      var desk := DeskOf(m, isBid, orderer);
      MatchRaisesProduct(isBid, c, desk, quantity);
      if isBid {
        MatchKeepsSide(isBid, c, desk, quantity, ASK_ID_START, m.nextAsk);
      } else {
        MatchKeepsSide(isBid, c, desk, quantity, 0, m.nextBid);
      }
      ProductKeepsBacking(m.pool, MatchFrom(isBid, c, desk, quantity).value.pool);
    }
  }

  lemma ProductKeepsBacking(p: Pool, p': Pool)
    requires Backed(p) && p'.supply == p.supply && p'.base * p'.quote >= p.base * p.quote
    ensures Backed(p')
  {
    if p.supply > 0 {
      ProductRaisesWorth(p, p');
      WorthCarriesBacking(p, p');
    } else {
      NoSharesNoClaims(p');
    }
  }

  lemma PlaceKeepsSpare(c: Config, m: Market, isBid: bool, maker: AccountId, price: Index, quantity: nat)
    requires CountersOk(m) && BooksOk(m) && quantity > 0 && RestOrder(c, m, isBid, maker, price, quantity).Ok?
    ensures var m' := RestOrder(c, m, isBid, maker, price, quantity).value;
      forall asks, who :: Spare(c, m', asks, who) == Spare(c, m, asks, who)
  {
    var m' := RestOrder(c, m, isBid, maker, price, quantity).value;
    var side, lo, id := !isBid, if isBid then 0 else ASK_ID_START, if isBid then m.nextBid else m.nextAsk;
    forall asks, who ensures Spare(c, m', asks, who) == Spare(c, m, asks, who) {
      FreezeAdds(m.ledger, maker, FrozenAsset(side), Need(side, c.decimals, price, quantity), who, FrozenAsset(asks));
      PlaceNeeds(side, c.decimals, SideOf(m, side), lo, id, maker, price, quantity, who);
      hide SideOk, PlaceIn, Need, Freeze, BookNeed, FrozenOf;
    }
  }

  lemma PlaceKeepsSound(c: Config, m: Market, isBid: bool, maker: AccountId, price: Index, quantity: nat)
    requires Sound(c, m) && quantity > 0 && RestOrder(c, m, isBid, maker, price, quantity).Ok?
    ensures KeptSound(c, m, RestOrder(c, m, isBid, maker, price, quantity).value)
  {
    PlaceKeepsSpare(c, m, isBid, maker, price, quantity);
    var id := if isBid then m.nextBid else m.nextAsk;
    IdRanges(id);
    PlaceKeepsSide(SideOf(m, !isBid), if isBid then 0 else ASK_ID_START, id, maker, price, quantity);
    hide SideOk, Spare, Backed, PlaceIn, Need, Freeze;
  }

  lemma CancelKeepsSound(c: Config, m: Market, owner: AccountId, price: Index, id: OrderId, quantity: nat)
    requires Sound(c, m) && CancelOnSide(m, owner, price, id, quantity).Ok?
    ensures KeptSound(c, m, CancelOnSide(m, owner, price, id, quantity).value)
  {
    hide SideOk, Spare, CancelIn, IsBidId, Backed, SharesOk;
    var m' := CancelOnSide(m, owner, price, id, quantity).value;
    forall asks, who ensures Spare(c, m, asks, who) <= Spare(c, m', asks, who) {
      CancelAddsSpare(c, m, owner, price, id, quantity, asks, who);
      hide *;
    }
    if IsBidId(id) {
      CancelKeepsSide(m.bids, 0, m.nextBid, owner, price, id, quantity);
    } else {
      CancelKeepsSide(m.asks, ASK_ID_START, m.nextAsk, owner, price, id, quantity);
    }
    PoolAndSharesAlone(m, m');
  }

  lemma PoolAndSharesAlone(m: Market, m': Market)
    requires SharesOk(m) && m'.pool == m.pool && m'.shares == m.shares
    ensures SharesOk(m')
  {
  }

  /** A liquidity call does to the pool what `Apply` does, and leaves freezes alone. */
  lemma LiquidityCallEffect(c: Config, m: Market, who: AccountId, to: AccountId, op: Op)
    ensures LiquidityCall(c, m, who, to, op).Ok? ==>
      var m' := LiquidityCall(c, m, who, to, op).value;
      && m'.pool == Apply(c.terms, m.pool, op)
      && m' == m.(pool := m'.pool, ledger := m'.ledger, shares := m'.shares)
      && forall whose, a :: FrozenOf(m'.ledger, whose, a) == FrozenOf(m.ledger, whose, a)
  {
    hide TakenAmounts, MintedFor, RemoveLiquidity, SwapExactIn, SwapExactOut, Withdraw, Credit, Burn, Mint, FrozenOf;
    if LiquidityCall(c, m, who, to, op).Ok? {
      var m' := LiquidityCall(c, m, who, to, op).value;
      forall whose, a ensures FrozenOf(m'.ledger, whose, a) == FrozenOf(m.ledger, whose, a) {
        LiquidityCallKeepsFrozen(c, m, who, to, op, whose, a);
      }
    }
  }

  lemma LiquidityCallKeepsFrozen(c: Config, m: Market, who: AccountId, to: AccountId, op: Op, whose: AccountId,
      a: Asset)
    requires LiquidityCall(c, m, who, to, op).Ok?
    ensures FrozenOf(LiquidityCall(c, m, who, to, op).value.ledger, whose, a) == FrozenOf(m.ledger, whose, a)
  {
    hide TakenAmounts, MintedFor, RemoveLiquidity, SwapExactIn, SwapExactOut, Withdraw, Credit, FrozenOf;
    var l := m.ledger;
    match op
    case Add(_, _, _, _) =>
      var (base, quote) :=
        TakenAmounts(c.terms, m.pool, op.baseDesired, op.quoteDesired, op.baseMin, op.quoteMin).value;
      PairKeepsFrozen(l, who, base, quote, whose, a);
    case Remove(_, _, _, _) =>
      var w := RemoveLiquidity(c.terms, m.pool, op.burn, op.withdrawalFee, op.baseMin, op.quoteMin).value;
      TransferKeepsFrozen(l, to, to, BaseAsset, w.base, whose, a);
      TransferKeepsFrozen(Credit(l, to, BaseAsset, w.base), to, to, QuoteAsset, w.quote, whose, a);
    case ExactIn(paying, x) =>
      var out := SwapExactIn(c.terms, m.pool, paying, x).value.1;
      PayKeepsFrozen(paying == Quoted, l, who, to, if paying == Base then Swap(x, out) else Swap(out, x), whose, a);
    case ExactOut(paying, y) =>
      var paid := SwapExactOut(c.terms, m.pool, paying, y).value.1;
      PayKeepsFrozen(paying == Quoted, l, who, to, if paying == Base then Swap(paid, y) else Swap(y, paid), whose, a);
    case Donate(b, q) => PairKeepsFrozen(l, who, b, q, whose, a);
  }

  lemma PairKeepsFrozen(l: Ledger, who: AccountId, base: nat, quote: nat, whose: AccountId, a: Asset)
    requires Withdraw(l, who, BaseAsset, base).Ok?
    ensures var l1 := Withdraw(l, who, BaseAsset, base).value;
      Withdraw(l1, who, QuoteAsset, quote).Ok? ==>
        FrozenOf(Withdraw(l1, who, QuoteAsset, quote).value, whose, a) == FrozenOf(l, whose, a)
  {
    hide Withdraw, FrozenOf;
    TransferKeepsFrozen(l, who, who, BaseAsset, base, whose, a);
    TransferKeepsFrozen(Withdraw(l, who, BaseAsset, base).value, who, who, QuoteAsset, quote, whose, a);
  }

  lemma PayKeepsFrozen(isBid: bool, l: Ledger, who: AccountId, to: AccountId, s: Swap, whose: AccountId, a: Asset)
    requires PaySwap(isBid, l, who, to, s).Ok?
    ensures FrozenOf(PaySwap(isBid, l, who, to, s).value, whose, a) == FrozenOf(l, whose, a)
  {
    hide Withdraw, Credit, FrozenOf;
    var (inAsset, paid, outAsset, got) :=
      if isBid then (QuoteAsset, s.quote, BaseAsset, s.base) else (BaseAsset, s.base, QuoteAsset, s.quote);
    TransferKeepsFrozen(l, who, to, inAsset, paid, whose, a);
    TransferKeepsFrozen(Withdraw(l, who, inAsset, paid).value, who, to, outAsset, got, whose, a);
  }

  /** Shares in the accounts and the locked ones make up the supply, through every liquidity call. */
  lemma LiquidityCallKeepsShares(c: Config, m: Market, who: AccountId, to: AccountId, op: Op)
    requires SharesOk(m) && Backed(m.pool) && LiquidityCall(c, m, who, to, op).Ok?
    ensures SharesOk(LiquidityCall(c, m, who, to, op).value)
  {
    hide TakenAmounts, Amm.GetAmountIn, Amm.GetAmountOut, Amm.MulDiv, Sum, SharesFor, Backed;
    match op
    case Add(_, _, _, _) =>
      var (base, quote) :=
        TakenAmounts(c.terms, m.pool, op.baseDesired, op.quoteDesired, op.baseMin, op.quoteMin).value;
      MintAdds(m.shares, to, MintedFor(m.pool, base, quote).value);
    case Remove(_, _, _, _) =>
      BurnTakes(m.shares, who, op.burn);
    case _ =>
  }

  /** Whoever holds the shares they want to burn leaves the locked ones in the pool. */
  lemma HoldersCanBurn(c: Config, m: Market, who: AccountId, op: Op)
    requires Sound(c, m) && op.Remove? && op.burn <= SharesOf(m.shares, who)
    ensures RemoveLiquidity(c.terms, m.pool, op.burn, op.withdrawalFee, op.baseMin, op.quoteMin) != Err(NotEnoughShares)
  {
    BurnTakes(m.shares, who, op.burn);
    hide Amm.MulDiv, Sum, BooksOk, FreezesOk, Backed;
  }

  lemma LiquidityKeepsSound(c: Config, m: Market, who: AccountId, to: AccountId, op: Op)
    requires Sound(c, m) && LiquidityCall(c, m, who, to, op).Ok?
    ensures KeptSound(c, m, LiquidityCall(c, m, who, to, op).value)
  {
    LiquidityCallEffect(c, m, who, to, op);
    LiquidityCallKeepsShares(c, m, who, to, op);
    ApplyKeepsBacking(c.terms, m.pool, op);
    hide LiquidityCall, Apply, SideOk, BookNeed, Backed, FrozenOf, SharesOk;
    var m' := LiquidityCall(c, m, who, to, op).value;
    forall asks, whose ensures Spare(c, m', asks, whose) == Spare(c, m, asks, whose) {
      assert FrozenOf(m'.ledger, whose, FrozenAsset(asks)) == FrozenOf(m.ledger, whose, FrozenAsset(asks));
    }
  }

  /** Every call keeps the market sound, and no release ever finds too little frozen. */
  lemma PerformKeepsSound(c: Config, m: Market, call: Call)
    requires ValidConfig(c) && Sound(c, m)
    ensures Perform(c, m, call) != Err(FrozenUnderflow)
    ensures KeptSound(c, m, After(c, m, call))
  {
    assert KeptSound(c, m, m);
    hide KeptSound, Sound, MatchOrder, LimitOrder, CancelOnSide, LiquidityCall;
    match call
    case Taking(isBid, who, quantity) =>
      MatchKeepsSound(c, m, isBid, who, quantity);
    case Limit(isBid, who, price, quantity) =>
      LimitKeepsSound(c, m, isBid, who, price, quantity);
    case Cancelling(who, price, id, quantity) =>
      CancelNeverUnderflows(m, who, price, id, quantity);
      if CancelOnSide(m, who, price, id, quantity).Ok? {
        CancelKeepsSound(c, m, who, price, id, quantity);
      }
    case Providing(who, to, op) =>
      LiquidityNeverUnderflows(c, m, who, to, op);
      if LiquidityCall(c, m, who, to, op).Ok? {
        LiquidityKeepsSound(c, m, who, to, op);
      }
  }

  lemma LimitKeepsSound(c: Config, m: Market, isBid: bool, maker: AccountId, price: Index, quantity: nat)
    requires ValidConfig(c) && Sound(c, m)
    ensures LimitOrder(c, m, isBid, maker, price, quantity) != Err(FrozenUnderflow)
    ensures LimitOrder(c, m, isBid, maker, price, quantity).Ok? ==>
      KeptSound(c, m, LimitOrder(c, m, isBid, maker, price, quantity).value)
  {
    hide KeptSound, Sound, MatchOrder, RestOrder, CurrentPrice;
    MatchKeepsSound(c, m, isBid, maker, quantity);
    PriceNeverUnderflows(c, m);
    RestNeverUnderflows(c, m, isBid, maker, price, quantity);
    if quantity > 0 && RestOrder(c, m, isBid, maker, price, quantity).Ok? {
      PlaceKeepsSound(c, m, isBid, maker, price, quantity);
    }
  }

  lemma PriceNeverUnderflows(c: Config, m: Market)
    ensures CurrentPrice(c, m) != Err(FrozenUnderflow)
  {
  }

  lemma RestNeverUnderflows(c: Config, m: Market, isBid: bool, maker: AccountId, price: Index, quantity: nat)
    ensures RestOrder(c, m, isBid, maker, price, quantity) != Err(FrozenUnderflow)
  {
    hide CheckedNeed, PlaceIn;
  }

  lemma CancelNeverUnderflows(m: Market, owner: AccountId, price: Index, id: OrderId, quantity: nat)
    ensures CancelOnSide(m, owner, price, id, quantity) != Err(FrozenUnderflow)
  {
    hide CancelIn;
  }

  lemma LiquidityNeverUnderflows(c: Config, m: Market, who: AccountId, to: AccountId, op: Op)
    ensures LiquidityCall(c, m, who, to, op) != Err(FrozenUnderflow)
  {
    hide TakenAmounts, MintedFor, RemoveLiquidity, SwapExactIn, SwapExactOut;
  }

  lemma NewMarketIsSound(c: Config, ledger: Ledger)
    ensures Sound(c, NewMarket(ledger))
  {
    forall asks, who ensures BookNeed(asks, c.decimals, map[], who) == 0 {
      assert LevelNeeds(asks, c.decimals, map[], who) == map[];
    }
  }

  /** Safety over whole runs, along which no account's spare freeze ever shrinks. */
  lemma {:induction false} EveryRunIsSound(c: Config, m: Market, calls: seq<Call>)
    requires ValidConfig(c) && Sound(c, m)
    ensures KeptSound(c, m, AfterAll(c, m, calls))
    decreases calls
  {
    hide Sound, After, Spare;
    if calls != [] {
      PerformKeepsSound(c, m, calls[0]);
      EveryRunIsSound(c, After(c, m, calls[0]), calls[1..]);
    }
  }

  /**
    Cancelling unfreezes nothing, and nothing that happens later does: over every run after the cancellation of
    part of an order, its owner has that part's need frozen on top of what their remaining orders need. Only a
    cancellation that frees no need leaves no such rest.
   */
  lemma CancelStrandsFreeze(c: Config, m: Market, owner: AccountId, price: Index, id: OrderId, quantity: nat,
      calls: seq<Call>)
    requires ValidConfig(c) && Sound(c, m) && CancelOnSide(m, owner, price, id, quantity).Ok?
    ensures var side := !IsBidId(id);
      && price in SideOf(m, side).levels
      && var orders := SideOf(m, side).levels[price].openOrders;
      && Position(orders, id) < |orders| && quantity <= orders[Position(orders, id)].quantity
      && var stranded := Stranded(c, side, price, orders[Position(orders, id)].quantity, quantity);
      && Spare(c, AfterAll(c, CancelOnSide(m, owner, price, id, quantity).value, calls), side, owner)
         >= Spare(c, m, side, owner) + stranded >= stranded
      && (side ==> stranded == quantity)
  {
    var m', side := CancelOnSide(m, owner, price, id, quantity).value, !IsBidId(id);
    CancelAddsSpare(c, m, owner, price, id, quantity, side, owner);
    CancelKeepsSound(c, m, owner, price, id, quantity);
    EveryRunIsSound(c, m', calls);
    assert SpareKept(c, m', AfterAll(c, m', calls)) && FreezesOk(c, m);
    hide IsBidId, CancelOnSide, AfterAll, Spare, BooksOk, Backed;
  }

  lemma EveryNewMarketStaysSound(c: Config, ledger: Ledger, calls: seq<Call>)
    requires ValidConfig(c)
    ensures Sound(c, AfterAll(c, NewMarket(ledger), calls))
  {
    NewMarketIsSound(c, ledger);
    EveryRunIsSound(c, NewMarket(ledger), calls);
  }
}

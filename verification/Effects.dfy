/**
  What the order calls do to every account, both books, the pool and the counters.

  A matched order is described by its pool legs and its trades; a resting order and a cancellation by the one level they
  touch. Each description names everything that changes, by how much, and that nothing else does.
 */
module Effects {
  import Amm
  import opened Arithmetic
  import opened Bits
  import opened Errors
  import opened Freezes
  import opened Ledgers
  import opened Legs
  import opened Liquidity
  import opened Markets
  import opened MarketSafety
  import opened Matching
  import opened OrderBook
  import opened Rounds
  import opened SwapSearch
  import opened Ticks
  import opened Wrappers

  // ---------- what trades move ----------

  /** How much of an asset one trade moves: the taker gets the makers' frozen asset and hands over the other. */
  ghost function Amount(isBid: bool, d: Decimals, t: Trade, a: Asset): nat {
    if a == BaseAsset then t.quantity else Need(isBid, d, t.price, t.quantity)
  }

  /** How much of an asset all trades move. */
  ghost function Traded(isBid: bool, d: Decimals, trades: seq<Trade>, a: Asset): nat {
    if trades == [] then 0
    else
      var n := |trades| - 1;
      Traded(isBid, d, trades[..n], a) + Amount(isBid, d, trades[n], a)
  }

  /** How much of it in trades with `who` as the maker. */
  ghost function Made(isBid: bool, d: Decimals, trades: seq<Trade>, who: AccountId, a: Asset): nat {
    if trades == [] then 0
    else
      var n := |trades| - 1;
      Made(isBid, d, trades[..n], who, a) + (if trades[n].owner == who then Amount(isBid, d, trades[n], a) else 0)
  }

  lemma {:induction false} TradedIsSum(isBid: bool, d: Decimals, trades: seq<Trade>)
    ensures Traded(isBid, d, trades, BaseAsset) == TradeSum(trades)
  {
    if trades != [] {
      var n := |trades| - 1;
      TradedIsSum(isBid, d, trades[..n]);
      assert trades == trades[..n] + [trades[n]];
      TradeSumAppend(trades[..n], [trades[n]]);
      assert [trades[n]][1..] == [];
    }
  }

  /** In the base asset, and in the asset that was frozen, these are the makers' needs. */
  lemma {:induction false} MadeIsNeed(isBid: bool, d: Decimals, trades: seq<Trade>, who: AccountId)
    ensures Made(isBid, d, trades, who, FrozenAsset(isBid)) == TradesNeed(isBid, d, trades, who)
    ensures Made(isBid, d, trades, who, BaseAsset) == TradesNeed(true, d, trades, who)
  {
    if trades != [] {
      var n := |trades| - 1;
      MadeIsNeed(isBid, d, trades[..n], who);
      TradesNeedSnoc(isBid, d, trades, who);
      TradesNeedSnoc(true, d, trades, who);
      hide TradesNeed;
    }
  }

  /** What `who` gains of an asset by trades that `taker` made. */
  ghost function FromTrades(isBid: bool, d: Decimals, trades: seq<Trade>, taker: AccountId, who: AccountId, a: Asset)
    : int
  {
    var taken := if who == taker then Traded(isBid, d, trades, a) else 0;
    var made := Made(isBid, d, trades, who, a);
    if a == FrozenAsset(isBid) then taken - made else made - taken
  }

  /** What `who` gains of an asset by pool legs that `taker` paid for. */
  ghost function FromSwaps(isBid: bool, swaps: seq<Swap>, taker: AccountId, who: AccountId, a: Asset): int {
    var amount := if a == BaseAsset then SwapSum(swaps) else QuoteSum(swaps);
    if who != taker then 0 else if a == FrozenAsset(isBid) then amount else -amount
  }

  lemma SettleOneGains(isBid: bool, d: Decimals, l: Ledger, orderer: AccountId, t: Trade, who: AccountId, a: Asset)
    requires SettleOne(isBid, d, l, orderer, t).Ok?
    ensures var amount := Amount(isBid, d, t, a);
      var (to, from) := if a == FrozenAsset(isBid) then (orderer, t.owner) else (t.owner, orderer);
      BalanceOf(SettleOne(isBid, d, l, orderer, t).value, who, a)
      == BalanceOf(l, who, a) + (if who == to then amount else 0) - (if who == from then amount else 0)
  {
    hide SettleOne, Need, BalanceOf;
    SettleMovesOf(isBid, d, l, orderer, t, who, a);
  }

  /** Settlement pays every trade, in full and once: every balance and every freeze after it. */
  lemma {:induction false} SettlePays(isBid: bool, d: Decimals, l: Ledger, orderer: AccountId, trades: seq<Trade>,
      who: AccountId, a: Asset)
    requires Settle(isBid, d, l, orderer, trades).Ok?
    ensures var after := Settle(isBid, d, l, orderer, trades).value;
      && BalanceOf(after, who, a) == BalanceOf(l, who, a) + FromTrades(isBid, d, trades, orderer, who, a)
      && Released(isBid, d, l, after, trades, who)
    decreases |trades|
  {
    hide SettleOne, Amount, BalanceOf, FrozenOf, TradesNeed;
    if trades == [] {
      NoTradesNoNeed(isBid, d, who);
    } else {
      var n := |trades| - 1;
      SettlePays(isBid, d, l, orderer, trades[..n], who, a);
      var settled := Settle(isBid, d, l, orderer, trades[..n]).value;
      SettleOneGains(isBid, d, settled, orderer, trades[n], who, a);
      SettleOneReleases(isBid, d, settled, orderer, trades[n], who);
      TradesNeedSnoc(isBid, d, trades, who);
    }
  }

  // ---------- what pool legs move ----------

  /** A swap takes exactly its price from whoever pays, and gives exactly its proceeds to whoever receives. */
  lemma PayMoves(isBid: bool, l: Ledger, who: AccountId, to: AccountId, s: Swap, x: AccountId, a: Asset)
    requires PaySwap(isBid, l, who, to, s).Ok?
    ensures var amount := if a == BaseAsset then s.base else s.quote;
      BalanceOf(PaySwap(isBid, l, who, to, s).value, x, a)
      == BalanceOf(l, x, a) + (if x == to && a == FrozenAsset(isBid) then amount else 0)
         - (if x == who && a == FrozenAsset(!isBid) then amount else 0)
  {
  }

  /** It is refused exactly when the payer cannot spend its price. */
  lemma PaysIff(isBid: bool, l: Ledger, who: AccountId, to: AccountId, s: Swap)
    ensures PaySwap(isBid, l, who, to, s).Ok?
       <==> Free(l, who, FrozenAsset(!isBid)) >= if isBid then s.quote else s.base
  {
  }

  lemma PoolLegPays(isBid: bool, c: Config, desk: Desk, quantity: nat, who: AccountId, a: Asset)
    requires PoolLeg(isBid, c, desk, quantity).Ok?
    ensures var after := PoolLeg(isBid, c, desk, quantity).value;
      && after.taker == desk.taker
      && BalanceOf(after.ledger, who, a) - FromSwaps(isBid, after.swaps, desk.taker, who, a)
         == BalanceOf(desk.ledger, who, a) - FromSwaps(isBid, desk.swaps, desk.taker, who, a)
  {
    hide FillPool, PaySwap, BalanceOf, SwapSum, QuoteSum;
    var leg := FillPool(isBid, c, desk.pool, quantity).value.1;
    PayMoves(isBid, desk.ledger, desk.taker, desk.taker, leg, who, a);
    SumsPush(desk.swaps, leg);
  }

  /** The taker pays for every pool leg of a match, and nobody else does. */
  lemma LegsPaid(isBid: bool, c: Config, desk: Desk, remain: nat, who: AccountId, a: Asset)
    requires desk.swaps == []
    ensures MatchFrom(isBid, c, desk, remain).Ok? ==>
      var after := MatchFrom(isBid, c, desk, remain).value;
      BalanceOf(after.ledger, who, a) == BalanceOf(desk.ledger, who, a)
                                         + FromSwaps(isBid, after.swaps, desk.taker, who, a)
  {
    var kept := (d: Desk) =>
      && d.taker == desk.taker
      && BalanceOf(d.ledger, who, a) - FromSwaps(isBid, d.swaps, desk.taker, who, a) == BalanceOf(desk.ledger, who, a);
    assert kept(desk);
    hide PoolLeg, MatchFrom, FromSwaps, BalanceOf;
    forall d: Desk, q: nat | kept(d) && PoolLeg(isBid, c, d, q).Ok? ensures kept(PoolLeg(isBid, c, d, q).value) {
      PoolLegPays(isBid, c, d, q, who, a);
    }
    MatchKeeps(isBid, c, desk, remain, kept);
  }

  // ---------- matched orders ----------

  /** Every account after a match: paid by the legs and the trades, and released by the trades. */
  ghost predicate AccountsMoved(isBid: bool, d: Decimals, l: Ledger, l': Ledger, taker: AccountId, swaps: seq<Swap>,
      trades: seq<Trade>)
  {
    && (forall who, a :: BalanceOf(l', who, a) == BalanceOf(l, who, a) + FromSwaps(isBid, swaps, taker, who, a)
                                                  + FromTrades(isBid, d, trades, taker, who, a))
    && (forall who :: Released(isBid, d, l, l', trades, who))
  }

  /** The side that was matched: every level shrinks by what was traded at its price, and none appears. */
  ghost predicate LevelsTraded(levels: Levels, levels': Levels, trades: seq<Trade>) {
    && levels'.Keys <= levels.Keys
    && (forall p :: LevelTotal(levels, p) == LevelTotal(levels', p) + TradedAt(trades, p))
  }

  /** The pool after the legs, each made at the pool's quote for the reserves that the legs before it left. */
  ghost predicate PoolMoved(isBid: bool, c: Config, pool: Pool, pool': Pool, swaps: seq<Swap>) {
    && LegsPriced(isBid, c.terms.fee, pool, swaps) && pool'.supply == pool.supply
    && pool'.base == BaseBefore(isBid, pool, swaps, |swaps|) && pool'.quote == QuoteBefore(isBid, pool, swaps, |swaps|)
  }

  /**
    `quantity` was executed for `taker` by these legs and trades: they add up to it, they were chosen by the search and
    the book, and accounts, pool and book moved by exactly them. The taker's own side, the counters and the shares stay.
   */
  ghost predicate Executed(c: Config, m: Market, m': Market, isBid: bool, taker: AccountId, quantity: nat,
      swaps: seq<Swap>, trades: seq<Trade>)
  {
    && SwapSum(swaps) + TradeSum(trades) == quantity
    && Follows(isBid, c, SideOf(m, isBid).levels, m.pool, quantity, swaps, trades)
    && AccountsMoved(isBid, c.decimals, m.ledger, m'.ledger, taker, swaps, trades)
    && PoolMoved(isBid, c, m.pool, m'.pool, swaps)
    && LevelsTraded(SideOf(m, isBid).levels, SideOf(m', isBid).levels, trades)
    && SideOf(m', !isBid) == SideOf(m, !isBid)
    && m'.nextBid == m.nextBid && m'.nextAsk == m.nextAsk && m'.shares == m.shares
  }

  /** The legs and trades of a match. */
  ghost function RunOf(c: Config, m: Market, isBid: bool, taker: AccountId, quantity: nat): Result<Desk, MarketError> {
    MatchFrom(isBid, c, DeskOf(m, isBid, taker), quantity)
  }

  lemma MatchMovesAccounts(c: Config, m: Market, isBid: bool, taker: AccountId, quantity: nat)
    requires MatchOrder(c, m, isBid, taker, quantity).Ok?
    ensures RunOf(c, m, isBid, taker, quantity).Ok?
    ensures var run := RunOf(c, m, isBid, taker, quantity).value;
      AccountsMoved(isBid, c.decimals, m.ledger, MatchOrder(c, m, isBid, taker, quantity).value.ledger, taker,
                    run.swaps, run.trades)
  {
    hide MatchFrom, Settle, BalanceOf, FrozenOf, FromSwaps, FromTrades, TradesNeed;
    var run := RunOf(c, m, isBid, taker, quantity).value;
    var l, l' := run.ledger, MatchOrder(c, m, isBid, taker, quantity).value.ledger;
    var desk := DeskOf(m, isBid, taker);
    forall who, a
      ensures BalanceOf(l', who, a) == BalanceOf(m.ledger, who, a) + FromSwaps(isBid, run.swaps, taker, who, a)
                                       + FromTrades(isBid, c.decimals, run.trades, taker, who, a)
    {
      LegsPaid(isBid, c, desk, quantity, who, a);
      SettlePays(isBid, c.decimals, l, taker, run.trades, who, a);
    }
    forall who ensures Released(isBid, c.decimals, m.ledger, l', run.trades, who) {
      SettlePays(isBid, c.decimals, l, taker, run.trades, who, BaseAsset);
      MatchKeepsFrozen(isBid, c, desk, quantity, who, BaseAsset);
      MatchKeepsFrozen(isBid, c, desk, quantity, who, QuoteAsset);
    }
  }

  /** A matched order, as a whole. */
  lemma MatchEffect(c: Config, m: Market, isBid: bool, taker: AccountId, quantity: nat)
    requires MatchOrder(c, m, isBid, taker, quantity).Ok?
    ensures RunOf(c, m, isBid, taker, quantity).Ok?
    ensures var run := RunOf(c, m, isBid, taker, quantity).value;
      Executed(c, m, MatchOrder(c, m, isBid, taker, quantity).value, isBid, taker, quantity, run.swaps, run.trades)
  {
    hide MatchFrom, Settle, AccountsMoved, Follows, Accounted, LegsPriced, LevelTotal, TradedAt, SwapSum, TradeSum;
    var desk, run := DeskOf(m, isBid, taker), RunOf(c, m, isBid, taker, quantity).value;
    MatchMovesAccounts(c, m, isBid, taker, quantity);
    MatchFollowsSearch(isBid, c, desk, quantity);
    RunFills(c, m, isBid, taker, quantity);
    forall p ensures LevelTotal(desk.book.levels, p) == LevelTotal(run.book.levels, p) + TradedAt(run.trades, p) {
      MatchTakesFromLevels(isBid, c, desk, quantity, p);
      NoSums(p, isBid);
    }
    MatchTakesFromLevels(isBid, c, desk, quantity, 0);
    RunMovesPool(c, m, isBid, taker, quantity);
  }

  lemma RunFills(c: Config, m: Market, isBid: bool, taker: AccountId, quantity: nat)
    requires RunOf(c, m, isBid, taker, quantity).Ok?
    ensures var run := RunOf(c, m, isBid, taker, quantity).value; SwapSum(run.swaps) + TradeSum(run.trades) == quantity
  {
    hide MatchFrom;
    MatchFillsOrder(isBid, c, DeskOf(m, isBid, taker), quantity);
    NoSums(0, isBid);
  }

  lemma RunMovesPool(c: Config, m: Market, isBid: bool, taker: AccountId, quantity: nat)
    requires RunOf(c, m, isBid, taker, quantity).Ok?
    ensures var run := RunOf(c, m, isBid, taker, quantity).value; PoolMoved(isBid, c, m.pool, run.pool, run.swaps)
  {
    hide MatchFrom, LegsPriced, BaseBefore, QuoteBefore;
    MatchLegsPriced(isBid, c, DeskOf(m, isBid, taker), quantity);
    MatchRaisesProduct(isBid, c, DeskOf(m, isBid, taker), quantity);
  }

  // ---------- what the taker ends up with ----------

  ghost predicate NoOrdersOf(levels: Levels, who: AccountId) {
    forall p | p in levels :: forall i | 0 <= i < |levels[p].openOrders| :: levels[p].openOrders[i].owner != who
  }

  lemma {:induction false} OthersNeedNothing(asks: bool, d: Decimals, price: nat, orders: seq<Order>, who: AccountId)
    requires forall i | 0 <= i < |orders| :: orders[i].owner != who
    ensures OrdersNeed(asks, d, price, orders, who) == 0
  {
    if orders != [] {
      OthersNeedNothing(asks, d, price, orders[1..], who);
    }
  }

  lemma {:induction false} SumOfZeros<K>(m: map<K, nat>)
    requires forall k | k in m :: m[k] == 0
    ensures Sum(m) == 0
    decreases |m|
  {
    if m != map[] {
      var k :| k in m && Sum(m) == m[k] + Sum(m - {k});
      KeysShrink(m, k);
      SumOfZeros(m - {k});
    }
  }

  lemma NoOrdersNoNeed(asks: bool, d: Decimals, levels: Levels, who: AccountId)
    requires NoOrdersOf(levels, who)
    ensures BookNeed(asks, d, levels, who) == 0
  {
    forall p | p in levels ensures OrdersNeed(asks, d, p, levels[p].openOrders, who) == 0 {
      OthersNeedNothing(asks, d, p, levels[p].openOrders, who);
    }
    SumOfZeros(LevelNeeds(asks, d, levels, who));
  }

  /**
    The taker gets, or gives, exactly the base asset of the order, apart from what they trade with their own orders;
    and all of it when they have none resting on the other side.
   */
  lemma TakerGetsOrder(c: Config, m: Market, isBid: bool, taker: AccountId, quantity: nat)
    requires MatchOrder(c, m, isBid, taker, quantity).Ok?
    ensures RunOf(c, m, isBid, taker, quantity).Ok?
    ensures var m' := MatchOrder(c, m, isBid, taker, quantity).value;
      var own := Made(isBid, c.decimals, RunOf(c, m, isBid, taker, quantity).value.trades, taker, BaseAsset);
      && BalanceOf(m'.ledger, taker, BaseAsset)
         == BalanceOf(m.ledger, taker, BaseAsset) + (if isBid then quantity - own else own - quantity)
      && (NoOrdersOf(SideOf(m, isBid).levels, taker) ==> own == 0)
  {
    hide MatchFrom, Settle, Made, Traded, SwapSum, QuoteSum, BalanceOf, BookNeed, TradesNeed, NoOrdersOf, TradeSum;
    MatchMovesAccounts(c, m, isBid, taker, quantity);
    RunFills(c, m, isBid, taker, quantity);
    var trades := RunOf(c, m, isBid, taker, quantity).value.trades;
    TradedIsSum(isBid, c.decimals, trades);
    if NoOrdersOf(SideOf(m, isBid).levels, taker) {
      MadeIsNeed(isBid, c.decimals, trades, taker);
      MatchReleasesWithinNeed(isBid, true, c, DeskOf(m, isBid, taker), quantity, taker);
      NoOrdersNoNeed(true, c.decimals, SideOf(m, isBid).levels, taker);
      NoTradesNoNeed(true, c.decimals, taker);
    }
  }

  // ---------- which orders are refused ----------

  ghost predicate Times(k: nat, unit: nat, x: nat) {
    k > 0 && x == k * unit
  }

  /** A positive multiple. */
  ghost predicate Multiple(x: nat, unit: nat) {
    exists k: nat :: Times(k, unit, x)
  }

  lemma ValidIsMultiple(c: Config, x: nat)
    requires ValidConfig(c)
    ensures ValidPrice(c, x) <==> Multiple(x, c.tickSize)
    ensures ValidQuantity(c, x) <==> Multiple(x, c.lotSize)
  {
    MultipleIff(x, c.tickSize);
    MultipleIff(x, c.lotSize);
  }

  lemma MultipleIff(x: nat, unit: nat)
    requires unit > 0
    ensures Multiple(x, unit) <==> x > 0 && x % unit == 0
    ensures Multiple(x, unit) ==> x >= unit
    ensures x > 0 && x % unit == 0 ==> x >= unit
  {
    DivNeighbours(x, unit);
    if Multiple(x, unit) {
      var k: nat :| Times(k, unit, x);
      MulMono(1, k, unit);
      DivReaches(x, unit, k);
      DivReaches(x, unit, k + 1);
      SumOfProducts(k, 1, unit);
    }
    if x > 0 && x % unit == 0 {
      DivReaches(x, unit, 1);
      assert Times(x / unit, unit, x);
    }
  }

  lemma {:induction false} SettleErrors(isBid: bool, d: Decimals, l: Ledger, orderer: AccountId, trades: seq<Trade>)
    ensures var settled := Settle(isBid, d, l, orderer, trades);
      settled.Err? ==> EngineError(settled.error) || settled.error == FrozenUnderflow
    decreases |trades|
  {
    hide SettleOne;
    if trades != [] {
      SettleErrors(isBid, d, l, orderer, trades[..|trades| - 1]);
      var settled := Settle(isBid, d, l, orderer, trades[..|trades| - 1]);
      if settled.Ok? {
        SettleOneErrors(isBid, d, settled.value, orderer, trades[|trades| - 1]);
      }
    }
  }

  lemma SettleOneErrors(isBid: bool, d: Decimals, l: Ledger, orderer: AccountId, t: Trade)
    ensures var settled := SettleOne(isBid, d, l, orderer, t);
      settled.Err? ==> EngineError(settled.error) || settled.error == FrozenUnderflow
  {
    hide CheckedNeed;
  }

  lemma MatchOrderErrors(c: Config, m: Market, isBid: bool, taker: AccountId, quantity: nat)
    ensures var matched := MatchOrder(c, m, isBid, taker, quantity);
      matched.Err? ==> EngineError(matched.error) || matched.error == FrozenUnderflow
  {
    hide MatchFrom, Settle;
    MatchingErrors(isBid, c, DeskOf(m, isBid, taker), quantity);
    var run := RunOf(c, m, isBid, taker, quantity);
    if run.Ok? {
      SettleErrors(isBid, c.decimals, run.value.ledger, taker, run.value.trades);
    }
  }

  lemma RestOrderErrors(c: Config, m: Market, isBid: bool, maker: AccountId, price: Index, quantity: nat)
    ensures var rested := RestOrder(c, m, isBid, maker, price, quantity);
      rested.Err? ==> EngineError(rested.error) || rested.error == BookRefused || rested.error == IdsExhausted
  {
    hide CheckedNeed, PlaceIn;
  }

  lemma PriceErrors(c: Config, m: Market)
    ensures CurrentPrice(c, m).Err? ==> EngineError(CurrentPrice(c, m).error)
  {
  }

  /** Exactly which market orders are refused for their quantity. */
  lemma MarketOrderRefusals(c: Config, m: Market, isBid: bool, taker: AccountId, quantity: nat)
    requires ValidConfig(c)
    ensures var r := MarketOrder(c, m, isBid, taker, quantity);
      && (r == Err(MarketError.WrongDesiredAmount) <==> quantity == 0)
      && (r == Err(InvalidOrderQuantity) <==> quantity > 0 && !Multiple(quantity, c.lotSize))
      && (quantity > 0 && Multiple(quantity, c.lotSize) ==> r == MatchOrder(c, m, isBid, taker, quantity))
  {
    hide MatchOrder, Multiple, ValidQuantity;
    ValidIsMultiple(c, quantity);
    MatchOrderErrors(c, m, isBid, taker, quantity);
  }

  /** Exactly which limit orders are refused for their price or their quantity, when the pool has a price. */
  lemma LimitOrderRefusals(c: Config, m: Market, isBid: bool, maker: AccountId, price: Index, quantity: nat)
    requires ValidConfig(c)
    ensures var r, quoted := LimitOrder(c, m, isBid, maker, price, quantity), CurrentPrice(c, m).Ok?;
      && (r == Err(InvalidOrderPrice) <==> quoted && !Multiple(price, c.tickSize))
      && (r == Err(InvalidOrderQuantity)
          <==> quoted && Multiple(price, c.tickSize) && !Multiple(quantity, c.lotSize))
      && (r.Ok? ==> quoted && Multiple(price, c.tickSize) && Multiple(quantity, c.lotSize))
  {
    hide MatchOrder, RestOrder, CurrentPrice, Multiple, ValidPrice, ValidQuantity;
    ValidIsMultiple(c, price);
    ValidIsMultiple(c, quantity);
    PriceErrors(c, m);
    MatchOrderErrors(c, m, isBid, maker, quantity);
    RestOrderErrors(c, m, isBid, maker, price, quantity);
  }

  // ---------- resting orders ----------

  ghost function OrdersAt(levels: Levels, p: Index): seq<Order> {
    if p in levels then levels[p].openOrders else []
  }

  /** Two sides have the same levels except at one price. */
  ghost predicate SameElsewhere(levels: Levels, levels': Levels, price: Index) {
    forall p | p != price :: (p in levels <==> p in levels') && OrdersAt(levels', p) == OrdersAt(levels, p)
  }

  /** The order is the last of its level and carries the next id; nothing moved but its freeze. */
  ghost predicate Rested(c: Config, m: Market, m': Market, isBid: bool, maker: AccountId, price: Index, quantity: nat) {
    var levels, levels' := SideOf(m, !isBid).levels, SideOf(m', !isBid).levels;
    var id := if isBid then m.nextBid else m.nextAsk;
    && price in levels' && OrdersAt(levels', price) == OrdersAt(levels, price) + [Order(id, maker, quantity)]
    && SameElsewhere(levels, levels', price)
    && m'.nextBid == (if isBid then id + 1 else m.nextBid) && m'.nextAsk == (if isBid then m.nextAsk else id + 1)
    && SideOf(m', isBid) == SideOf(m, isBid) && m'.pool == m.pool && m'.shares == m.shares
    && (forall who, a :: BalanceOf(m'.ledger, who, a) == BalanceOf(m.ledger, who, a))
    && (forall who, a ::
        var need := if who == maker && a == FrozenAsset(!isBid) then Need(!isBid, c.decimals, price, quantity) else 0;
        FrozenOf(m'.ledger, who, a) == FrozenOf(m.ledger, who, a) + need)
  }

  lemma OrdersAtOk(levels: Levels, lo: OrderId, next: OrderId, p: Index)
    requires SideOk(levels, lo, next)
    ensures LevelOk(OrdersAt(levels, p), lo, next)
  {
  }

  lemma PlacedAtEnd(book: Book, lo: OrderId, id: OrderId, owner: AccountId, price: Index, quantity: nat)
    requires SideOk(book.levels, lo, id) && lo <= id && quantity > 0
    requires PlaceIn(book, id, owner, price, quantity).Ok?
    ensures var levels' := PlaceIn(book, id, owner, price, quantity).value.levels;
      && price in levels' && OrdersAt(levels', price) == OrdersAt(book.levels, price) + [Order(id, owner, quantity)]
      && SameElsewhere(book.levels, levels', price)
  {
    var orders := OrdersAt(book.levels, price);
    hide LevelOk, SideOk, Ids, Placed;
    OrdersAtOk(book.levels, lo, id, price);
    PlacedLevelOk(orders, lo, id, owner, quantity);
    assert [] + [Order(id, owner, quantity)] == [Order(id, owner, quantity)];
  }

  lemma FreezeOnly(l: Ledger, who: AccountId, a: Asset, amount: nat)
    requires Freeze(l, who, a, amount).Ok?
    ensures var l' := Freeze(l, who, a, amount).value;
      && (forall x, b :: BalanceOf(l', x, b) == BalanceOf(l, x, b))
      && (forall x, b :: FrozenOf(l', x, b) == FrozenOf(l, x, b) + (if x == who && b == a then amount else 0))
  {
  }

  lemma RestEffect(c: Config, m: Market, isBid: bool, maker: AccountId, price: Index, quantity: nat)
    requires CountersOk(m) && BooksOk(m) && quantity > 0 && RestOrder(c, m, isBid, maker, price, quantity).Ok?
    ensures Rested(c, m, RestOrder(c, m, isBid, maker, price, quantity).value, isBid, maker, price, quantity)
  {
    var side, lo, id := !isBid, if isBid then 0 else ASK_ID_START, if isBid then m.nextBid else m.nextAsk;
    FreezeOnly(m.ledger, maker, FrozenAsset(side), Need(side, c.decimals, price, quantity));
    hide PlaceIn, Freeze, Need, SideOk, IsBidId, BalanceOf, FrozenOf, SameElsewhere;
    PlacedAtEnd(SideOf(m, side), lo, id, maker, price, quantity);
  }

  /** Exactly when an order can rest: its worth is in range and free, an id is left, and its level is or fits. */
  lemma RestsIff(c: Config, m: Market, isBid: bool, maker: AccountId, price: Index, quantity: nat)
    requires CountersOk(m)
    ensures RestOrder(c, m, isBid, maker, price, quantity).Ok?
       <==> && (isBid ==> price * quantity <= Amm.U128_MAX && WorthScale(c.decimals) <= 19)
            && Free(m.ledger, maker, FrozenAsset(!isBid)) >= Need(!isBid, c.decimals, price, quantity)
            && (if isBid then m.nextBid < ASK_ID_START - 1 else m.nextAsk < U64_MAX - 1)
            && (price in SideOf(m, !isBid).levels || SideOf(m, !isBid).created < CAPACITY)
  {
    CheckedNeedSucceedsIff(!isBid, c.decimals, price, quantity);
    IdRanges(m.nextBid);
    IdRanges(m.nextAsk);
    hide CheckedNeed, Need, IsBidId;
  }

  // ---------- limit orders ----------

  /** A price on the far side of the pool's: nobody would trade at it now. */
  predicate FarSide(isBid: bool, price: nat, poolPrice: nat) {
    if isBid then price < poolPrice else price > poolPrice
  }

  /**
    A limit order that succeeds rests at its price when the pool price is on the far side of it, and is executed in full
    otherwise. Both are described by what changes and that nothing else does.
   */
  lemma LimitOrderEffect(c: Config, m: Market, isBid: bool, maker: AccountId, price: Index, quantity: nat)
    requires ValidConfig(c) && CountersOk(m) && BooksOk(m) && LimitOrder(c, m, isBid, maker, price, quantity).Ok?
    ensures m.pool.base > 0 && m.pool.quote > 0
    ensures var m' := LimitOrder(c, m, isBid, maker, price, quantity).value;
      if FarSide(isBid, price, PriceOf(c.decimals, m.pool.base, m.pool.quote)) then
        Rested(c, m, m', isBid, maker, price, quantity)
      else
        && RunOf(c, m, isBid, maker, quantity).Ok?
        && var run := RunOf(c, m, isBid, maker, quantity).value;
        && Executed(c, m, m', isBid, maker, quantity, run.swaps, run.trades)
  {
    hide MatchOrder, RestOrder, Rested, Executed, RunOf, PriceOf, CountersOk, BooksOk;
    if FarSide(isBid, price, PriceOf(c.decimals, m.pool.base, m.pool.quote)) {
      RestEffect(c, m, isBid, maker, price, quantity);
    } else {
      MatchEffect(c, m, isBid, maker, quantity);
    }
  }

  /** A market order that succeeds is executed in full. */
  lemma MarketOrderEffect(c: Config, m: Market, isBid: bool, taker: AccountId, quantity: nat)
    requires ValidConfig(c) && MarketOrder(c, m, isBid, taker, quantity).Ok?
    ensures RunOf(c, m, isBid, taker, quantity).Ok?
    ensures var run := RunOf(c, m, isBid, taker, quantity).value;
      Executed(c, m, MarketOrder(c, m, isBid, taker, quantity).value, isBid, taker, quantity, run.swaps, run.trades)
  {
    hide MatchOrder, Executed, RunOf;
    MatchEffect(c, m, isBid, taker, quantity);
  }

  // ---------- cancellations ----------

  /**
    A cancellation succeeds exactly when the book of the id's half holds that order at that price, for that owner and
    with that much; it takes the quantity off that level, which stays even when emptied, and changes nothing else.
   */
  lemma CancelEffect(m: Market, owner: AccountId, price: Index, id: OrderId, quantity: nat)
    requires BooksOk(m) && id <= U64_MAX
    ensures var side := id >= ASK_ID_START;
      var levels := SideOf(m, side).levels;
      var orders, cancelled := OrdersAt(levels, price), CancelOnSide(m, owner, price, id, quantity);
      && (cancelled.Ok? <==> exists o :: o in orders && o.id == id && o.owner == owner && o.quantity >= quantity)
      && (cancelled.Err? ==> cancelled == Err(BookRefused))
      && (cancelled.Ok? ==>
            var m' := cancelled.value;
            var levels' := SideOf(m', side).levels;
            && price in levels' && SameElsewhere(levels, levels', price)
            && Total(OrdersAt(levels', price)) == Total(orders) - quantity
            && SideOf(m', !side) == SideOf(m, !side) && m'.pool == m.pool && m'.ledger == m.ledger
            && m'.shares == m.shares && m'.nextBid == m.nextBid && m'.nextAsk == m.nextAsk)
  {
    IdRanges(id);
    var side := id >= ASK_ID_START;
    var levels := SideOf(m, side).levels;
    if price in levels {
      var orders := levels[price].openOrders;
      assert LevelOk(orders, if side then ASK_ID_START else 0, if side then m.nextAsk else m.nextBid);
      CancelNeedsOwner(orders, owner, id, quantity);
      if Canceled(orders, owner, id, quantity).Ok? {
        CancelTakesQuantity(orders, owner, id, quantity);
      }
    }
    hide IsBidId, Canceled, SideOk, Total;
  }
}

/**
  The limit price of an order that is matched at once.

  The source compares a limit price with the pool price and, when the order is marketable, matches it without
  handing the limit on. Here is when the match respects it all the same.
 */
module Limits {
  import opened Amm
  import opened Bits
  import opened Costs
  import opened Freezes
  import opened Ledgers
  import opened Legs
  import opened Liquidity
  import opened Markets
  import opened MarketSafety
  import opened Matching
  import opened OrderBook
  import opened SwapSearch
  import opened Ticks
  import opened Wrappers

  /** `price` is no worse than `limit` for the taker. */
  predicate Within(price: nat, limit: nat, isBid: bool) {
    if isBid then price <= limit else price >= limit
  }

  ghost predicate AllWithin(trades: seq<Trade>, limit: nat, isBid: bool) {
    forall i | 0 <= i < |trades| :: Within(trades[i].price, limit, isBid)
  }

  /** How much a queue offers within the limit. */
  ghost function Depth(offers: seq<Offer>, limit: nat, isBid: bool): nat {
    if offers == [] then 0
    else (if Within(offers[0].price, limit, isBid) then offers[0].quantity else 0) + Depth(offers[1..], limit, isBid)
  }

  // ---------- trades ----------

  lemma {:induction false} DepthAppend(a: seq<Offer>, b: seq<Offer>, limit: nat, isBid: bool)
    ensures Depth(a + b, limit, isBid) == Depth(a, limit, isBid) + Depth(b, limit, isBid)
  {
    if a == [] {
      assert a + b == b;
    } else {
      assert (a + b)[1..] == a[1..] + b;
      DepthAppend(a[1..], b, limit, isBid);
    }
  }

  /** All of it, or nothing of it, when all offers are on one side of the limit. */
  lemma {:induction false} DepthOfSide(offers: seq<Offer>, limit: nat, isBid: bool, within: bool)
    requires forall i | 0 <= i < |offers| :: Within(offers[i].price, limit, isBid) == within
    ensures Depth(offers, limit, isBid) == if within then OfferSum(offers) else 0
  {
    if offers != [] {
      DepthOfSide(offers[1..], limit, isBid, within);
    }
  }

  /** A queue from best to worst price: the offers within the limit come first. */
  ghost predicate BestFirst(queue: seq<Offer>, isBid: bool) {
    forall i, j | 0 <= i < j < |queue| :: Within(queue[i].price, queue[j].price, isBid)
  }

  lemma {:induction false} SplitAtLimit(queue: seq<Offer>, limit: nat, isBid: bool) returns (n: nat)
    requires BestFirst(queue, isBid)
    ensures n <= |queue| && Depth(queue, limit, isBid) == OfferSum(queue[..n])
    ensures forall i | 0 <= i < |queue| :: Within(queue[i].price, limit, isBid) <==> i < n
  {
    n := 0;
    while n < |queue| && Within(queue[n].price, limit, isBid)
      invariant n <= |queue| && forall i | 0 <= i < n :: Within(queue[i].price, limit, isBid)
    {
      n := n + 1;
    }
    hide Depth, OfferSum;
    forall i | n < i < |queue| ensures !Within(queue[i].price, limit, isBid) {
      assert Within(queue[n].price, queue[i].price, isBid);
    }
    assert queue == queue[..n] + queue[n..];
    DepthAppend(queue[..n], queue[n..], limit, isBid);
    DepthOfSide(queue[..n], limit, isBid, true);
    DepthOfSide(queue[n..], limit, isBid, false);
  }

  /** Trades that serve the front of a queue take no more than that front offers. */
  lemma {:induction false} ServedSum(trades: seq<Trade>, offers: seq<Offer>)
    requires |trades| <= |offers| && forall i | 0 <= i < |trades| :: trades[i].quantity <= offers[i].quantity
    ensures TradeSum(trades) <= OfferSum(offers)
  {
    if trades != [] {
      ServedSum(trades[1..], offers[1..]);
    }
  }

  lemma SweepWithinIff(queue: seq<Offer>, q: nat, limit: nat, isBid: bool)
    requires BestFirst(queue, isBid) && TradeSum(Sweep(queue, q)) == q
    ensures AllWithin(Sweep(queue, q), limit, isBid) <==> q <= Depth(queue, limit, isBid)
  {
    var trades := Sweep(queue, q);
    var n := SplitAtLimit(queue, limit, isBid);
    SweepServesInOrder(queue, q);
    if q <= Depth(queue, limit, isBid) {
      assert queue == queue[..n] + queue[n..];
      SweepStaysInFront(queue[..n], queue[n..], q);
      SweepServesInOrder(queue[..n], q);
    }
    hide Sweep;
    if AllWithin(trades, limit, isBid) {
      if trades != [] {
        assert trades[|trades| - 1].price == queue[|trades| - 1].price;
      }
      ServedSum(trades, queue[..n]);
    }
  }

  lemma QueueIsBestFirst(levels: Levels, isBid: bool)
    requires AllAscending(levels)
    ensures BestFirst(Queue(levels, isBid), isBid)
  {
    QueueInOrder(levels, isBid);
    hide Queue;
  }

  /** All trades of a match respect a limit exactly when they take no more than was on offer within it. */
  lemma TradesWithinLimitIff(isBid: bool, c: Config, desk: Desk, quantity: nat, limit: nat)
    requires desk.trades == [] && AllTidy(desk.book.levels) && AllAscending(desk.book.levels)
    ensures MatchFrom(isBid, c, desk, quantity).Ok? ==>
      var trades := MatchFrom(isBid, c, desk, quantity).value.trades;
      AllWithin(trades, limit, isBid) <==> TradeSum(trades) <= Depth(Queue(desk.book.levels, isBid), limit, isBid)
  {
    hide MatchFrom, Queue, Sweep, AllWithin, Depth, BestFirst, AllTidy, AllAscending;
    if MatchFrom(isBid, c, desk, quantity).Ok? {
      var queue, trades := Queue(desk.book.levels, isBid), MatchFrom(isBid, c, desk, quantity).value.trades;
      MatchSweepsQueue(isBid, c, desk, quantity);
      assert TradeSum([]) == 0 && [] + Sweep(queue, TradeSum(trades)) == Sweep(queue, TradeSum(trades));
      QueueIsBestFirst(desk.book.levels, isBid);
      SweepWithinIff(queue, TradeSum(trades), limit, isBid);
    }
  }

  /** An order no larger than what is on offer within its limit trades within it. */
  lemma DepthKeepsTradesWithin(isBid: bool, c: Config, desk: Desk, quantity: nat, limit: nat)
    requires desk.swaps == [] && desk.trades == [] && AllTidy(desk.book.levels) && AllAscending(desk.book.levels)
    requires quantity <= Depth(Queue(desk.book.levels, isBid), limit, isBid)
    ensures MatchFrom(isBid, c, desk, quantity).Ok? ==>
      AllWithin(MatchFrom(isBid, c, desk, quantity).value.trades, limit, isBid)
  {
    TradesWithinLimitIff(isBid, c, desk, quantity, limit);
    MatchFillsOrder(isBid, c, desk, quantity);
    hide MatchFrom, Queue, AllWithin, Depth, AllTidy, AllAscending;
  }

  // ---------- pool legs ----------

  lemma DepthOfLevel(price: Index, orders: seq<Order>, limit: nat, isBid: bool)
    ensures Depth(OffersAt(price, orders), limit, isBid) == if Within(price, limit, isBid) then Total(orders) else 0
  {
    OfferSumIsTotal(price, orders);
    DepthOfSide(Offers(price, orders), limit, isBid, Within(price, limit, isBid));
  }

  lemma DepthOfBest(levels: Levels, isBid: bool, best: Index, limit: nat)
    requires Best(levels, isBid) == Some(best)
    ensures Depth(Queue(levels, isBid), limit, isBid)
         == (if Within(best, limit, isBid) then Total(levels[best].openOrders) else 0)
          + Depth(Queue(levels - {best}, isBid), limit, isBid)
  {
    QueueStartsAtBest(levels, isBid, best);
    hide Queue;
    DepthAppend(OffersAt(best, levels[best].openOrders), Queue(levels - {best}, isBid), limit, isBid);
    DepthOfLevel(best, levels[best].openOrders, limit, isBid);
  }

  lemma {:induction false} NoLevelNoDepth(levels: Levels, isBid: bool, limit: nat)
    requires forall p | p in levels :: !Within(p, limit, isBid)
    ensures Depth(Queue(levels, isBid), limit, isBid) == 0
    decreases |levels|
  {
    var best := Best(levels, isBid);
    if best.Some? {
      DepthOfBest(levels, isBid, best.value, limit);
      WithoutIsSmaller(Book(levels, 0), best.value);
      NoLevelNoDepth(levels - {best.value}, isBid, limit);
    }
  }

  /** Something on offer within the limit means that the best price is. */
  lemma BestIsWithin(levels: Levels, isBid: bool, limit: nat)
    requires Depth(Queue(levels, isBid), limit, isBid) > 0
    ensures Best(levels, isBid).Some? && Within(Best(levels, isBid).value, limit, isBid)
  {
    if forall p | p in levels :: !Within(p, limit, isBid) {
      NoLevelNoDepth(levels, isBid, limit);
    }
  }

  /** The pool has liquidity and its price is within a buyer's limit. */
  ghost predicate PoolWithin(c: Config, pool: Pool, limit: nat) {
    pool.base > 0 && pool.quote > 0 && PriceOf(c.decimals, pool.base, pool.quote) <= limit
  }

  /** A pool leg up to an ask within the limit leaves the pool within it. */
  lemma LegStaysWithin(c: Config, desk: Desk, target: Index, swap: nat, remain: nat, limit: nat)
    requires PoolWithin(c, desk.pool, limit) && target <= limit
    requires MaxSwap(true, target, c.decimals, c.terms.fee, desk.pool.base, desk.pool.quote, remain) == Ok(swap)
    ensures swap <= remain
    ensures swap > 0 && PoolLeg(true, c, desk, swap).Ok? ==>
      PoolWithin(c, PoolLeg(true, c, desk, swap).value.pool, limit)
  {
    BidLegStaysBelowTarget(target, c.decimals, c.terms.fee, desk.pool.base, desk.pool.quote, remain);
    if swap > 0 && PoolLeg(true, c, desk, swap).Ok? {
      BidLegPrice(c, desk, swap);
    }
    hide PriceOf, BidPrice, MaxSwap, PoolLeg;
  }

  /**
    The legs of a buying match alternate between asks within the limit and the pool below those asks, as long as
    the asks within the limit hold what remains of the order: the pool price never passes the limit.
   */
  lemma {:induction false} DepthKeepsPoolWithin(c: Config, desk: Desk, remain: nat, limit: nat)
    requires PoolWithin(c, desk.pool, limit) && remain <= Depth(Queue(desk.book.levels, true), limit, true)
    ensures MatchFrom(true, c, desk, remain).Ok? ==>
      PoolWithin(c, MatchFrom(true, c, desk, remain).value.pool, limit)
    decreases |desk.book.levels|, remain
  {
    hide PoolWithin, MaxSwap, PoolLeg, Queue, Depth;
    if remain > 0 && MatchFrom(true, c, desk, remain).Ok? {
      BestIsWithin(desk.book.levels, true, limit);
      var target := Best(desk.book.levels, true).value;
      var swap := MaxSwap(true, target, c.decimals, c.terms.fee, desk.pool.base, desk.pool.quote, remain).value;
      LegStaysWithin(c, desk, target, swap, remain, limit);
      if swap < remain {
        var (next, left) := Turn(true, c, desk, target, swap, remain).value;
        TurnShrinks(true, c, desk, target, swap, remain);
        TurnTrades(true, c, desk, target, swap, remain);
        DepthOfBest(desk.book.levels, true, target, limit);
        DepthKeepsPoolWithin(c, next, left, limit);
      }
    }
  }

  // ---------- limit orders ----------

  /** The match of an order respects a limit: no trade is beyond it and no pool leg is unfair at it. */
  ghost predicate Respects(isBid: bool, c: Config, after: Desk, limit: nat) {
    AllWithin(after.trades, limit, isBid) && AllFair(isBid, c.decimals, limit, after.swaps)
  }

  /** Every pool leg passes the test on the reserves before it. */
  ghost predicate AllPass(isBid: bool, c: Config, pool: Pool, swaps: seq<Swap>, limit: nat) {
    forall i | 0 <= i < |swaps| ::
      var base, quote := BaseBefore(isBid, pool, swaps, i), QuoteBefore(isBid, pool, swaps, i);
      && 0 < base && 0 < quote && (isBid ==> swaps[i].base < base)
      && LegPasses(isBid, c.decimals, c.terms.fee, base, quote, limit, swaps[i])
  }

  /** Exactly when a match respects a limit, in trades and in what the pool legs cost or bring. */
  lemma LimitRespectedIff(isBid: bool, c: Config, desk: Desk, quantity: nat, limit: nat)
    requires desk.swaps == [] && desk.trades == [] && AllTidy(desk.book.levels) && AllAscending(desk.book.levels)
    ensures MatchFrom(isBid, c, desk, quantity).Ok? ==>
      var after := MatchFrom(isBid, c, desk, quantity).value;
      Respects(isBid, c, after, limit)
      <==> && TradeSum(after.trades) <= Depth(Queue(desk.book.levels, isBid), limit, isBid)
           && AllPass(isBid, c, desk.pool, after.swaps, limit)
  {
    TradesWithinLimitIff(isBid, c, desk, quantity, limit);
    hide MatchFrom, AllWithin, FairLeg, LegPasses, BaseBefore, QuoteBefore, Depth, Queue, TradeSum;
    if MatchFrom(isBid, c, desk, quantity).Ok? {
      var swaps := MatchFrom(isBid, c, desk, quantity).value.swaps;
      forall i | 0 <= i < |swaps|
        ensures var base, quote := BaseBefore(isBid, desk.pool, swaps, i), QuoteBefore(isBid, desk.pool, swaps, i);
          && 0 < base && 0 < quote && (isBid ==> swaps[i].base < base)
          && (FairLeg(isBid, c.decimals, limit, swaps[i])
              <==> LegPasses(isBid, c.decimals, c.terms.fee, base, quote, limit, swaps[i]))
      {
        FairLegIff(isBid, c, desk, quantity, limit, i);
      }
    }
  }

  lemma SoundSidesAreOrdered(c: Config, m: Market, asks: bool)
    requires Sound(c, m)
    ensures AllTidy(SideOf(m, asks).levels) && AllAscending(SideOf(m, asks).levels)
  {
    var levels, lo := SideOf(m, asks).levels, if asks then ASK_ID_START else 0;
    forall p | p in levels ensures Tidy(levels[p].openOrders) && Ascending(levels[p].openOrders) {
      assert LevelOk(levels[p].openOrders, lo, if asks then m.nextAsk else m.nextBid);
    }
  }

  /** The test a taker can make before the call, in either direction. */
  ghost predicate FitsLimit(isBid: bool, c: Config, m: Market, limit: nat, quantity: nat) {
    && quantity <= Depth(Queue(SideOf(m, isBid).levels, isBid), limit, isBid)
    && (if isBid then CheapOrder(c.terms.fee, m.pool, RateDown(c.decimals, limit), quantity)
        else DearOrder(c.terms.fee, m.pool, RateUp(c.decimals, limit), quantity))
  }

  /**
    An order that is matched at once respects its limit whenever the resting orders within the limit hold its whole
    quantity and the pool is cheap, or dear, enough for all of it.
   */
  lemma LimitHolds(isBid: bool, c: Config, m: Market, maker: AccountId, limit: Index, quantity: nat)
    requires Sound(c, m) && FitsLimit(isBid, c, m, limit, quantity)
    ensures MatchFrom(isBid, c, DeskOf(m, isBid, maker), quantity).Ok? ==>
      Respects(isBid, c, MatchFrom(isBid, c, DeskOf(m, isBid, maker), quantity).value, limit)
  {
    SoundSidesAreOrdered(c, m, isBid);
    hide Sound, MatchFrom, Queue, Depth, AllWithin, AllFair, AllTidy, AllAscending, CheapOrder, DearOrder;
    var desk := DeskOf(m, isBid, maker);
    DepthKeepsTradesWithin(isBid, c, desk, quantity, limit);
    if isBid {
      CheapOrderLegs(c, desk, quantity, limit);
    } else {
      DearOrderLegs(c, desk, quantity, limit);
    }
  }

  /**
    A limit bid that is matched at once keeps the pool price within its limit whenever the asks at or below the limit
    hold the whole quantity. No trade is above the limit then; what the pool legs cost is another matter.
   */
  lemma LimitBidKeepsPrice(c: Config, m: Market, maker: AccountId, limit: Index, quantity: nat)
    requires Sound(c, m) && m.pool.base > 0 && m.pool.quote > 0
    requires Marketable(true, limit, PriceOf(c.decimals, m.pool.base, m.pool.quote))
    requires quantity <= Depth(Queue(m.asks.levels, true), limit, true)
    ensures MatchFrom(true, c, DeskOf(m, true, maker), quantity).Ok? ==>
      var after := MatchFrom(true, c, DeskOf(m, true, maker), quantity).value;
      AllWithin(after.trades, limit, true) && PoolWithin(c, after.pool, limit)
  {
    SoundSidesAreOrdered(c, m, true);
    hide Sound, MatchFrom, Queue, Depth, PriceOf, AllWithin, AllTidy, AllAscending;
    DepthKeepsTradesWithin(true, c, DeskOf(m, true, maker), quantity, limit);
    DepthKeepsPoolWithin(c, DeskOf(m, true, maker), quantity, limit);
  }

  // ---------- two runs that pass a limit ----------

  function ExampleConfig(): Config {
    Config(Terms(3, 1, 1), Decimals(0, 0, 0), 1, 1)
  }

  /** A new pool's first deposit, when all of both amounts is the depositor's own. */
  lemma FirstDeposit(base: nat, quote: nat, root: nat, ledger: Ledger)
    requires base * quote == root * root && 200 < root <= Amm.U128_MAX && 0 < base <= Amm.U128_MAX
    requires 0 < quote <= Amm.U128_MAX && 1 in ledger && ledger[1] == Wallet(base, quote, 0, 0)
    requires base * quote <= Amm.U256_MAX
    ensures After(ExampleConfig(), NewMarket(ledger), Providing(1, 1, Add(base, quote, 0, 0)))
         == NewMarket(ledger).(pool := Pool(base, quote, root), ledger := ledger[1 := Wallet(0, 0, 0, 0)],
                               shares := map[1 := root - 100])
  {
    SqrtOfSquare(root);
    hide IntegerSqrt;
    var c, m := ExampleConfig(), NewMarket(ledger);
    assert TakenAmounts(c.terms, m.pool, base, quote, 0, 0) == Ok((base, quote));
    assert MintedFor(m.pool, base, quote) == Ok(root - 100);
    hide TakenAmounts, MintedFor;
    var l1 := ledger[1 := Wallet(0, quote, 0, 0)];
    assert Withdraw(ledger, 1, BaseAsset, base) == Ok(l1);
    assert Withdraw(l1, 1, QuoteAsset, quote) == Ok(ledger[1 := Wallet(0, 0, 0, 0)]) by {
      assert l1[1 := Wallet(0, 0, 0, 0)] == ledger[1 := Wallet(0, 0, 0, 0)];
    }
  }

  /** An ask of account 2 comes to rest on an empty side. */
  lemma FirstAsk(m: Market, price: Index, quantity: nat)
    requires m.asks == Book(map[], 0) && m.nextAsk == ASK_ID_START && quantity > 0 && price > 0
    requires 2 in m.ledger && m.ledger[2] == Wallet(quantity, 0, 0, 0)
    requires CurrentPrice(ExampleConfig(), m).Ok? && CurrentPrice(ExampleConfig(), m).value < price
    ensures After(ExampleConfig(), m, Limit(false, 2, price, quantity))
         == m.(asks := Book(map[price := Tick([Order(ASK_ID_START, 2, quantity)])], 1), nextAsk := ASK_ID_START + 1,
               ledger := m.ledger[2 := Wallet(quantity, 0, quantity, 0)])
  {
    hide CurrentPrice;
    IdRanges(ASK_ID_START);
    hide IsBidId;
  }

  /**
    The limit is not handed on. Account 1 makes a pool of 300 against 300, at price 1, and account 2 offers 100 at 2.
    The bid of account 3 for 200 with limit 1 is marketable, goes through, and trades 100 at 2.
   */
  lemma LimitIsNotHandedOn(ledger: Ledger)
    requires ledger == map[1 := Wallet(300, 300, 0, 0), 2 := Wallet(100, 0, 0, 0), 3 := Wallet(0, 251, 0, 0)]
    ensures var c, calls := ExampleConfig(), [Providing(1, 1, Add(300, 300, 0, 0)), Limit(false, 2, 2, 100)];
      var m := AfterAll(c, NewMarket(ledger), calls);
      && LimitOrder(c, m, true, 3, 1, 200).Ok?
      && MatchFrom(true, c, DeskOf(m, true, 3), 200).Ok?
      && MatchFrom(true, c, DeskOf(m, true, 3), 200).value.trades == [Trade(2, 2, 100)]
  {
    hide AfterAll, CurrentPrice, LimitOrder, MatchOrder, MatchFrom;
    var m := MarketAtOne(ledger);
    BidTakesHundred(m);
    LimitGoesThrough(m, 1, 200);
  }

  /** The market the two calls lead to. */
  lemma MarketAtOne(ledger: Ledger) returns (m: Market)
    requires ledger == map[1 := Wallet(300, 300, 0, 0), 2 := Wallet(100, 0, 0, 0), 3 := Wallet(0, 251, 0, 0)]
    ensures var calls := [Providing(1, 1, Add(300, 300, 0, 0)), Limit(false, 2, 2, 100)];
      m == AfterAll(ExampleConfig(), NewMarket(ledger), calls)
    ensures m.asks == Book(map[2 := Tick([Order(ASK_ID_START, 2, 100)])], 1) && m.pool == Pool(300, 300, 300)
    ensures 2 in m.ledger && m.ledger[2] == Wallet(100, 0, 100, 0)
    ensures 3 in m.ledger && m.ledger[3] == Wallet(0, 251, 0, 0)
    ensures CurrentPrice(ExampleConfig(), m) == Ok(1)
  {
    hide After, AfterAll, CurrentPrice;
    var c, first, second := ExampleConfig(), Providing(1, 1, Add(300, 300, 0, 0)), Limit(false, 2, 2, 100);
    FirstDeposit(300, 300, 300, ledger);
    var m1 := After(c, NewMarket(ledger), first);
    PriceIs(m1, 1);
    FirstAsk(m1, 2, 100);
    m := After(c, m1, second);
    PriceIs(m, 1);
    TwoCalls(c, NewMarket(ledger), first, second);
  }

  lemma PriceIs(m: Market, price: nat)
    requires m.pool in {Pool(300, 300, 300), Pool(1000, 81000, 9000)}
    requires price == if m.pool.base == 300 then 1 else 81
    ensures CurrentPrice(ExampleConfig(), m) == Ok(price)
  {
    assert PoolPrice(Decimals(0, 0, 0), 300, 300) == Ok(1);
    assert PoolPrice(Decimals(0, 0, 0), 1000, 81000) == Ok(81);
  }

  lemma LimitGoesThrough(m: Market, limit: Index, quantity: nat)
    requires limit > 0 && quantity > 0 && CurrentPrice(ExampleConfig(), m) == Ok(limit)
    requires MatchOrder(ExampleConfig(), m, true, 3, quantity).Ok?
    ensures LimitOrder(ExampleConfig(), m, true, 3, limit, quantity).Ok?
  {
    hide CurrentPrice, MatchOrder;
  }

  lemma TwoCalls(c: Config, m: Market, first: Call, second: Call)
    requires ValidConfig(c)
    ensures AfterAll(c, m, [first, second]) == After(c, After(c, m, first), second)
  {
    hide After;
    assert [first, second][1..] == [second] && [second][1..] == [];
    var m1 := After(c, m, first);
    assert AfterAll(c, m1, [second]) == AfterAll(c, After(c, m1, second), []);
  }

  /** Buying 100 of 300 units for 151 takes the price from 1 to 2. */
  lemma BuysHundred()
    ensures MaxSwap(true, 2, Decimals(0, 0, 0), 3, 300, 300, 200) == Ok(100)
    ensures GetAmountIn(100, 300, 300, 3) == Ok(151)
  {
    var d := Decimals(0, 0, 0);
    assert GetAmountIn(100, 300, 300, 3) == Ok(151) by {
      assert 30000000 / 199400 == 150;
    }
    assert PoolPrice(d, 200, 451) == Ok(2);
    assert ProbePrice(true, d, 3, 300, 300, 100) == Ok(2);
    assert Mid(Search(0, 200, 0)) == 100;
    hide ProbePrice, Mid;
  }

  /** The bid of account 3 takes 100 from the pool for 151 and then all of the ask at 2. */
  lemma BidTakesHundred(m: Market)
    requires m.asks == Book(map[2 := Tick([Order(ASK_ID_START, 2, 100)])], 1) && m.pool == Pool(300, 300, 300)
    requires 2 in m.ledger && m.ledger[2] == Wallet(100, 0, 100, 0)
    requires 3 in m.ledger && m.ledger[3] == Wallet(0, 251, 0, 0)
    ensures var c := ExampleConfig();
      && MatchFrom(true, c, DeskOf(m, true, 3), 200).Ok?
      && MatchFrom(true, c, DeskOf(m, true, 3), 200).value.trades == [Trade(2, 2, 100)]
      && MatchOrder(c, m, true, 3, 200).Ok?
  {
    var c, desk := ExampleConfig(), DeskOf(m, true, 3);
    hide Best, MaxSwap, GetAmountIn, PoolLeg, BookLeg, BookFilled, MatchFrom, Settle;
    OnlyLevelIsBest(2, Tick([Order(ASK_ID_START, 2, 100)]));
    BuysHundred();
    var swapped := PoolTakesHundred(desk);
    var after := BookTakesHundred(swapped);
    MatchesOnce(c, desk, 2, 100, 200, swapped, after);
    SettlesHundred(after.ledger);
  }

  lemma OnlyLevelIsBest(price: Index, tick: Tick)
    ensures Best(map[price := tick], true) == Some(price)
  {
    var levels: Levels := map[price := tick];
    assert levels.Keys == {price} && IsLowest(price, levels.Keys);
  }

  lemma PoolTakesHundred(desk: Desk) returns (swapped: Desk)
    requires desk.pool == Pool(300, 300, 300) && desk.taker == 3
    requires 3 in desk.ledger && desk.ledger[3] == Wallet(0, 251, 0, 0)
    ensures PoolLeg(true, ExampleConfig(), desk, 100) == Ok(swapped)
    ensures swapped.book == desk.book && swapped.trades == desk.trades
    ensures swapped.ledger == desk.ledger[3 := Wallet(100, 100, 0, 0)]
  {
    BuysHundred();
    hide GetAmountIn;
    var l := desk.ledger;
    assert l[3 := Wallet(0, 100, 0, 0)][3 := Wallet(100, 100, 0, 0)] == l[3 := Wallet(100, 100, 0, 0)];
    assert FillPool(true, ExampleConfig(), desk.pool, 100) == Ok((Pool(200, 451, 300), Swap(100, 151)));
    hide FillPool;
    swapped := PoolLeg(true, ExampleConfig(), desk, 100).value;
  }

  lemma BookTakesHundred(desk: Desk) returns (after: Desk)
    requires desk.book == Book(map[2 := Tick([Order(ASK_ID_START, 2, 100)])], 1) && desk.trades == []
    ensures BookLeg(desk, 2, 100) == after && BookFilled(desk.book, 2, 100) == 100
    ensures after.trades == [Trade(2, 2, 100)] && after.ledger == desk.ledger
  {
    var orders := [Order(ASK_ID_START, 2, 100)];
    FillFirst(orders, 100);
    hide Fills, Rest;
    assert SumFills([Fill(2, 100)]) == 100;
    assert BookFills(desk.book, 2, 100) == [Fill(2, 100)];
    after := BookLeg(desk, 2, 100);
    hide BookFills;
    assert AtPrice(2, [Fill(2, 100)]) == [Trade(2, 2, 100)];
    assert [] + [Trade(2, 2, 100)] == [Trade(2, 2, 100)];
  }

  /** One round that finishes the order. */
  lemma MatchesOnce(c: Config, desk: Desk, target: Index, swap: nat, remain: nat, swapped: Desk, after: Desk)
    requires Best(desk.book.levels, true) == Some(target) && 0 < swap < remain
    requires MaxSwap(true, target, c.decimals, c.terms.fee, desk.pool.base, desk.pool.quote, remain) == Ok(swap)
    requires PoolLeg(true, c, desk, swap) == Ok(swapped) && BookLeg(swapped, target, remain - swap) == after
    requires BookFilled(swapped.book, target, remain - swap) == remain - swap
    ensures MatchFrom(true, c, desk, remain) == Ok(after)
  {
    hide MaxSwap, PoolLeg, BookLeg, BookFilled;
    assert Turn(true, c, desk, target, swap, remain) == Ok((after, 0));
    MatchOfNothing(true, c, after);
  }

  lemma SettlesHundred(l: Ledger)
    requires 2 in l && l[2] == Wallet(100, 0, 100, 0) && 3 in l && l[3] == Wallet(100, 100, 0, 0)
    ensures Settle(true, Decimals(0, 0, 0), l, 3, [Trade(2, 2, 100)]).Ok?
  {
    var t := Trade(2, 2, 100);
    var l1, l2 := l[2 := Wallet(100, 0, 0, 0)], l[2 := Wallet(0, 0, 0, 0)][3 := Wallet(200, 100, 0, 0)];
    assert Thaw(l, 2, BaseAsset, 100) == Ok(l1);
    assert Transfer(l1, 2, 3, BaseAsset, 100) == Ok(l2) by {
      assert l1[2 := Wallet(0, 0, 0, 0)] == l[2 := Wallet(0, 0, 0, 0)];
    }
    assert Transfer(l2, 3, 2, QuoteAsset, 100).Ok?;
    hide Thaw, Transfer;
    assert SettleOne(true, Decimals(0, 0, 0), l, 3, t).Ok?;
    assert [t][..0] == [];
    assert Settle(true, Decimals(0, 0, 0), l, 3, []) == Ok(l);
  }

  /**
    Pool legs can cost more than the limit. Account 1 makes a pool of 1000 against 81000, account 2 offers one unit at
    100, and a transfer of 19000 brings the pool price to 100. The bid of account 3 for one unit with limit 100 passes
    the tests of `LimitBidKeepsPrice`, and pays 101 to the pool.
   */
  lemma LimitLegCostsMore(ledger: Ledger)
    requires ledger == map[1 := Wallet(1000, 81000, 0, 0), 2 := Wallet(1, 0, 0, 0), 3 := Wallet(0, 101, 0, 0),
                           4 := Wallet(0, 19000, 0, 0)]
    ensures var c := ExampleConfig();
      var calls := [Providing(1, 1, Add(1000, 81000, 0, 0)), Limit(false, 2, 100, 1),
                    Providing(4, 4, Donate(0, 19000))];
      var m := AfterAll(c, NewMarket(ledger), calls);
      && CurrentPrice(c, m) == Ok(100) && 1 <= Depth(Queue(m.asks.levels, true), 100, true)
      && LimitOrder(c, m, true, 3, 100, 1).Ok?
      && MatchFrom(true, c, DeskOf(m, true, 3), 1).Ok?
      && MatchFrom(true, c, DeskOf(m, true, 3), 1).value.swaps == [Swap(1, 101)]
      && !Respects(true, c, MatchFrom(true, c, DeskOf(m, true, 3), 1).value, 100)
  {
    hide AfterAll, CurrentPrice, LimitOrder, MatchOrder, MatchFrom, Respects, Depth, Queue;
    var m := MarketAtHundred(ledger);
    OneAskDepth(m.asks.levels);
    BidPaysMore(m);
    LimitGoesThrough(m, 100, 1);
  }

  /** The market the three calls lead to. */
  lemma MarketAtHundred(ledger: Ledger) returns (m: Market)
    requires ledger == map[1 := Wallet(1000, 81000, 0, 0), 2 := Wallet(1, 0, 0, 0), 3 := Wallet(0, 101, 0, 0),
                           4 := Wallet(0, 19000, 0, 0)]
    ensures var calls := [Providing(1, 1, Add(1000, 81000, 0, 0)), Limit(false, 2, 100, 1),
                          Providing(4, 4, Donate(0, 19000))];
      m == AfterAll(ExampleConfig(), NewMarket(ledger), calls)
    ensures m.asks.levels == map[100 := Tick([Order(ASK_ID_START, 2, 1)])] && m.pool == Pool(1000, 100000, 9000)
    ensures 3 in m.ledger && m.ledger[3] == Wallet(0, 101, 0, 0) && CurrentPrice(ExampleConfig(), m) == Ok(100)
  {
    hide After, AfterAll, CurrentPrice;
    var c := ExampleConfig();
    var first, second, third :=
      Providing(1, 1, Add(1000, 81000, 0, 0)), Limit(false, 2, 100, 1), Providing(4, 4, Donate(0, 19000));
    FirstDeposit(1000, 81000, 9000, ledger);
    var m1 := After(c, NewMarket(ledger), first);
    PriceIs(m1, 81);
    FirstAsk(m1, 100, 1);
    var m2 := After(c, m1, second);
    DonationArrives(m2);
    m := After(c, m2, third);
    ThreeCalls(c, NewMarket(ledger), first, second, third);
  }

  lemma DonationArrives(m: Market)
    requires m.pool == Pool(1000, 81000, 9000) && 4 in m.ledger && m.ledger[4] == Wallet(0, 19000, 0, 0)
    ensures var m' := After(ExampleConfig(), m, Providing(4, 4, Donate(0, 19000)));
      && m' == m.(pool := Pool(1000, 100000, 9000), ledger := m.ledger[4 := Wallet(0, 0, 0, 0)])
      && CurrentPrice(ExampleConfig(), m') == Ok(100)
  {
    assert Withdraw(m.ledger, 4, BaseAsset, 0) == Ok(m.ledger[4 := Wallet(0, 19000, 0, 0)]);
    assert m.ledger[4 := Wallet(0, 19000, 0, 0)][4 := Wallet(0, 0, 0, 0)] == m.ledger[4 := Wallet(0, 0, 0, 0)];
    assert PoolPrice(Decimals(0, 0, 0), 1000, 100000) == Ok(100);
  }

  lemma ThreeCalls(c: Config, m: Market, first: Call, second: Call, third: Call)
    requires ValidConfig(c)
    ensures AfterAll(c, m, [first, second, third]) == After(c, After(c, After(c, m, first), second), third)
  {
    hide After;
    assert [first, second, third][1..] == [second, third];
    TwoCalls(c, After(c, m, first), second, third);
  }

  lemma OneAskDepth(levels: Levels)
    requires levels == map[100 := Tick([Order(ASK_ID_START, 2, 1)])]
    ensures Depth(Queue(levels, true), 100, true) >= 1 && Best(levels, true) == Some(100)
  {
    OnlyLevelIsBest(100, Tick([Order(ASK_ID_START, 2, 1)]));
    DepthOfBest(levels, true, 100, 100);
    assert Total([Order(ASK_ID_START, 2, 1)]) == 1;
  }

  lemma BidPaysMore(m: Market)
    requires m.asks.levels == map[100 := Tick([Order(ASK_ID_START, 2, 1)])] && m.pool == Pool(1000, 100000, 9000)
    requires 3 in m.ledger && m.ledger[3] == Wallet(0, 101, 0, 0)
    ensures var c := ExampleConfig();
      && MatchOrder(c, m, true, 3, 1).Ok? && MatchFrom(true, c, DeskOf(m, true, 3), 1).Ok?
      && MatchFrom(true, c, DeskOf(m, true, 3), 1).value.swaps == [Swap(1, 101)]
      && !Respects(true, c, MatchFrom(true, c, DeskOf(m, true, 3), 1).value, 100)
  {
    var c, d, desk := ExampleConfig(), Decimals(0, 0, 0), DeskOf(m, true, 3);
    PurchaseCostsMore();
    OneAskDepth(m.asks.levels);
    assert GetAmountIn(1, 100000, 1000, 3) == Ok(101);
    hide MaxSwap, GetAmountIn, InFor;
    assert PaySwap(true, m.ledger, 3, 3, Swap(1, 101)) == Ok(m.ledger[3 := Wallet(1, 0, 0, 0)]) by {
      assert m.ledger[3 := Wallet(0, 0, 0, 0)][3 := Wallet(1, 0, 0, 0)] == m.ledger[3 := Wallet(1, 0, 0, 0)];
    }
    var after := desk.(pool := Pool(999, 100101, 9000), ledger := m.ledger[3 := Wallet(1, 0, 0, 0)],
                       swaps := [Swap(1, 101)]);
    assert PoolLeg(true, c, desk, 1) == Ok(after) by {
      assert [] + [Swap(1, 101)] == [Swap(1, 101)];
    }
    hide PoolLeg, PaySwap;
    assert MatchFrom(true, c, desk, 1) == Ok(after);
    assert !FairLeg(true, d, 100, after.swaps[0]);
  }
}

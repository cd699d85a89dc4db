/** Further laws of whole runs: assets are conserved, ids are never reused, and bids keep the pool inside the spread. */
module MarketRuns {
  import Amm
  import opened Bits
  import opened Freezes
  import opened Ledgers
  import opened Liquidity
  import opened Markets
  import opened MarketSafety
  import opened Matching
  import opened OrderBook
  import opened SwapSearch
  import opened Ticks

  // ---------- conservation of the two assets ----------

  ghost function Reserve(p: Pool, a: Asset): nat {
    if a == BaseAsset then p.base else p.quote
  }

  /** All of an asset: in the accounts and in the pool. */
  ghost function Supply(m: Market, a: Asset): nat {
    Holdings(m.ledger, a) + Reserve(m.pool, a)
  }

  /** The same during a match. */
  ghost function DeskSupply(desk: Desk, a: Asset): nat {
    Holdings(desk.ledger, a) + Reserve(desk.pool, a)
  }

  lemma FillPoolMoves(isBid: bool, c: Config, pool: Pool, quantity: nat)
    requires FillPool(isBid, c, pool, quantity).Ok?
    ensures var (after, swap) := FillPool(isBid, c, pool, quantity).value;
      if isBid then after.base + swap.base == pool.base && after.quote == pool.quote + swap.quote
      else after.base == pool.base + swap.base && after.quote + swap.quote == pool.quote
  {
    hide Amm.GetAmountIn, Amm.GetAmountOut;
  }

  lemma PaySwapMoves(isBid: bool, l: Ledger, who: AccountId, to: AccountId, s: Swap, a: Asset)
    requires PaySwap(isBid, l, who, to, s).Ok?
    ensures var amount := if a == BaseAsset then s.base else s.quote;
      Holdings(PaySwap(isBid, l, who, to, s).value, a)
      == if isBid == (a == BaseAsset) then Holdings(l, a) + amount else Holdings(l, a) - amount
  {
    var (inAsset, paid, outAsset, got) :=
      if isBid then (QuoteAsset, s.quote, BaseAsset, s.base) else (BaseAsset, s.base, QuoteAsset, s.quote);
    WithdrawTakes(l, who, inAsset, paid, a);
    CreditAdds(Withdraw(l, who, inAsset, paid).value, to, outAsset, got, a);
    hide Holdings, Withdraw, Credit;
  }

  /** A pool leg moves the reserves by exactly what the taker pays and gets. */
  lemma PoolLegConserves(isBid: bool, c: Config, desk: Desk, quantity: nat, a: Asset)
    requires PoolLeg(isBid, c, desk, quantity).Ok?
    ensures DeskSupply(PoolLeg(isBid, c, desk, quantity).value, a) == DeskSupply(desk, a)
  {
    hide FillPool, PaySwap, Holdings;
    FillPoolMoves(isBid, c, desk.pool, quantity);
    PaySwapMoves(isBid, desk.ledger, desk.taker, desk.taker, FillPool(isBid, c, desk.pool, quantity).value.1, a);
  }

  lemma LegsConserve(isBid: bool, c: Config, desk: Desk, remain: nat, a: Asset)
    ensures MatchFrom(isBid, c, desk, remain).Ok? ==>
      DeskSupply(MatchFrom(isBid, c, desk, remain).value, a) == DeskSupply(desk, a)
  {
    hide PoolLeg, MatchFrom, Holdings;
    var kept := (d: Desk) => DeskSupply(d, a) == DeskSupply(desk, a);
    forall d: Desk, q: nat | kept(d) && PoolLeg(isBid, c, d, q).Ok? ensures kept(PoolLeg(isBid, c, d, q).value) {
      PoolLegConserves(isBid, c, d, q, a);
    }
    MatchKeeps(isBid, c, desk, remain, kept);
  }

  lemma SettleOneConserves(isBid: bool, d: Decimals, l: Ledger, orderer: AccountId, t: Trade, a: Asset)
    requires SettleOne(isBid, d, l, orderer, t).Ok?
    ensures Holdings(SettleOne(isBid, d, l, orderer, t).value, a) == Holdings(l, a)
  {
    hide Need, CheckedNeed, Thaw, Transfer, Holdings;
    var released := CheckedNeed(isBid, d, t.price, t.quantity).value;
    var (asset1, asset2) := if isBid then (BaseAsset, QuoteAsset) else (QuoteAsset, BaseAsset);
    var (transfer1, transfer2) := if isBid then (t.quantity, released) else (released, t.quantity);
    FreezingMovesNothing(l, t.owner, asset1, released, a);
    var thawed := Thaw(l, t.owner, asset1, released).value;
    TransferMovesOnly(thawed, t.owner, orderer, asset1, transfer1, a);
    var handed := Transfer(thawed, t.owner, orderer, asset1, transfer1).value;
    TransferMovesOnly(handed, orderer, t.owner, asset2, transfer2, a);
  }

  lemma {:induction false} SettleConserves(isBid: bool, d: Decimals, l: Ledger, orderer: AccountId,
      trades: seq<Trade>, a: Asset)
    requires Settle(isBid, d, l, orderer, trades).Ok?
    ensures Holdings(Settle(isBid, d, l, orderer, trades).value, a) == Holdings(l, a)
    decreases |trades|
  {
    hide SettleOne, Holdings;
    if trades != [] {
      var front, t := trades[..|trades| - 1], trades[|trades| - 1];
      SettleConserves(isBid, d, l, orderer, front, a);
      SettleOneConserves(isBid, d, Settle(isBid, d, l, orderer, front).value, orderer, t, a);
    }
  }

  lemma MatchConserves(c: Config, m: Market, isBid: bool, orderer: AccountId, quantity: nat, a: Asset)
    ensures MatchOrder(c, m, isBid, orderer, quantity).Ok? ==>
      Supply(MatchOrder(c, m, isBid, orderer, quantity).value, a) == Supply(m, a)
  {
    hide MatchFrom, Settle, Holdings;
    if MatchOrder(c, m, isBid, orderer, quantity).Ok? {
      var desk := DeskOf(m, isBid, orderer);
      LegsConserve(isBid, c, desk, quantity, a);
      var after := MatchFrom(isBid, c, desk, quantity).value;
      SettleConserves(isBid, c.decimals, after.ledger, orderer, after.trades, a);
    }
  }

  lemma DepositConserves(c: Config, m: Market, who: AccountId, to: AccountId, op: Op, a: Asset)
    requires op.Add? && LiquidityCall(c, m, who, to, op).Ok?
    ensures Supply(LiquidityCall(c, m, who, to, op).value, a) == Supply(m, a)
  {
    hide Holdings, Withdraw, TakenAmounts, MintedFor;
    var (base, quote) := TakenAmounts(c.terms, m.pool, op.baseDesired, op.quoteDesired, op.baseMin, op.quoteMin).value;
    WithdrawTakes(m.ledger, who, BaseAsset, base, a);
    WithdrawTakes(Withdraw(m.ledger, who, BaseAsset, base).value, who, QuoteAsset, quote, a);
  }

  lemma WithdrawalConserves(c: Config, m: Market, who: AccountId, to: AccountId, op: Op, a: Asset)
    requires op.Remove? && LiquidityCall(c, m, who, to, op).Ok?
    ensures Supply(LiquidityCall(c, m, who, to, op).value, a) == Supply(m, a)
  {
    hide Holdings, Credit, Amm.MulDiv;
    var w := RemoveLiquidity(c.terms, m.pool, op.burn, op.withdrawalFee, op.baseMin, op.quoteMin).value;
    CreditAdds(m.ledger, to, BaseAsset, w.base, a);
    CreditAdds(Credit(m.ledger, to, BaseAsset, w.base), to, QuoteAsset, w.quote, a);
  }

  lemma SwapConserves(c: Config, m: Market, who: AccountId, to: AccountId, op: Op, a: Asset)
    requires (op.ExactIn? || op.ExactOut?) && LiquidityCall(c, m, who, to, op).Ok?
    ensures Supply(LiquidityCall(c, m, who, to, op).value, a) == Supply(m, a)
  {
    hide Holdings, PaySwap, Amm.GetAmountIn, Amm.GetAmountOut;
    if op.ExactIn? {
      var out := SwapExactIn(c.terms, m.pool, op.paying, op.amountIn).value.1;
      PaySwapMoves(op.paying == Quoted, m.ledger, who, to,
                   if op.paying == Base then Swap(op.amountIn, out) else Swap(out, op.amountIn), a);
    } else {
      var paid := SwapExactOut(c.terms, m.pool, op.paying, op.amountOut).value.1;
      PaySwapMoves(op.paying == Quoted, m.ledger, who, to,
                   if op.paying == Base then Swap(paid, op.amountOut) else Swap(op.amountOut, paid), a);
    }
  }

  lemma LiquidityConserves(c: Config, m: Market, who: AccountId, to: AccountId, op: Op, a: Asset)
    requires LiquidityCall(c, m, who, to, op).Ok?
    ensures Supply(LiquidityCall(c, m, who, to, op).value, a) == Supply(m, a)
  {
    match op
    case Add(_, _, _, _) => DepositConserves(c, m, who, to, op, a); hide LiquidityCall;
    case Remove(_, _, _, _) => WithdrawalConserves(c, m, who, to, op, a); hide LiquidityCall;
    case ExactIn(_, _) => SwapConserves(c, m, who, to, op, a); hide LiquidityCall;
    case ExactOut(_, _) => SwapConserves(c, m, who, to, op, a); hide LiquidityCall;
    case Donate(b, q) =>
      hide Holdings, Withdraw;
      WithdrawTakes(m.ledger, who, BaseAsset, b, a);
      WithdrawTakes(Withdraw(m.ledger, who, BaseAsset, b).value, who, QuoteAsset, q, a);
  }

  lemma RestConserves(c: Config, m: Market, isBid: bool, maker: AccountId, price: Index, quantity: nat, a: Asset)
    requires RestOrder(c, m, isBid, maker, price, quantity).Ok?
    ensures Supply(RestOrder(c, m, isBid, maker, price, quantity).value, a) == Supply(m, a)
  {
    hide Holdings, Freeze, CheckedNeed, PlaceIn;
    var amount := CheckedNeed(!isBid, c.decimals, price, quantity).value;
    FreezingMovesNothing(m.ledger, maker, FrozenAsset(!isBid), amount, a);
  }

  lemma CallConserves(c: Config, m: Market, call: Call, a: Asset)
    requires ValidConfig(c)
    ensures Supply(After(c, m, call), a) == Supply(m, a)
  {
    hide Supply, MatchOrder, RestOrder, LiquidityCall, CurrentPrice;
    if Perform(c, m, call).Ok? {
      match call
      case Taking(isBid, who, quantity) => MatchConserves(c, m, isBid, who, quantity, a);
      case Limit(isBid, who, price, quantity) =>
        if Marketable(isBid, price, CurrentPrice(c, m).value) {
          MatchConserves(c, m, isBid, who, quantity, a);
        } else {
          RestConserves(c, m, isBid, who, price, quantity, a);
        }
      case Cancelling(who, price, id, quantity) => CancelConserves(m, who, price, id, quantity, a);
      case Providing(who, to, op) => LiquidityConserves(c, m, who, to, op, a);
    }
  }

  lemma CancelConserves(m: Market, owner: AccountId, price: Index, id: OrderId, quantity: nat, a: Asset)
    requires CancelOnSide(m, owner, price, id, quantity).Ok?
    ensures Supply(CancelOnSide(m, owner, price, id, quantity).value, a) == Supply(m, a)
  {
    hide CancelIn, IsBidId;
  }

  /** No run of calls creates or destroys any of the two assets. */
  lemma {:induction false} RunsConserveAssets(c: Config, m: Market, calls: seq<Call>, a: Asset)
    requires ValidConfig(c)
    ensures Supply(AfterAll(c, m, calls), a) == Supply(m, a)
    decreases calls
  {
    hide After, Supply;
    if calls != [] {
      CallConserves(c, m, calls[0], a);
      RunsConserveAssets(c, After(c, m, calls[0]), calls[1..], a);
    }
  }

  // ---------- order ids ----------

  /** The id a call issues, if it places an order. */
  ghost function Issued(c: Config, m: Market, call: Call): seq<OrderId>
    requires ValidConfig(c)
  {
    var m' := After(c, m, call);
    (if m'.nextBid != m.nextBid then [m.nextBid] else []) + (if m'.nextAsk != m.nextAsk then [m.nextAsk] else [])
  }

  ghost function IssuedIn(c: Config, m: Market, calls: seq<Call>): seq<OrderId>
    requires ValidConfig(c)
    decreases calls
  {
    if calls == [] then [] else Issued(c, m, calls[0]) + IssuedIn(c, After(c, m, calls[0]), calls[1..])
  }

  /** A call moves at most one counter, by one. */
  lemma CountersStep(c: Config, m: Market, call: Call)
    requires ValidConfig(c)
    ensures var m' := After(c, m, call);
      && m.nextBid <= m'.nextBid <= m.nextBid + 1 && m.nextAsk <= m'.nextAsk <= m.nextAsk + 1
      && (m'.nextBid == m.nextBid || m'.nextAsk == m.nextAsk)
  {
    hide MatchFrom, Settle, PlaceIn, CancelIn, CurrentPrice, CheckedNeed, Freeze;
    if call.Providing? {
      LiquidityCallEffect(c, m, call.who, call.to, call.op);
    }
    hide LiquidityCall;
  }

  /** Issued ids lie between the counters before and after. */
  ghost predicate Between(ids: seq<OrderId>, m: Market, m': Market) {
    forall i | 0 <= i < |ids| :: m.nextBid <= ids[i] < m'.nextBid || m.nextAsk <= ids[i] < m'.nextAsk
  }

  ghost predicate NoneTwice(ids: seq<OrderId>) {
    forall i, j | 0 <= i < j < |ids| :: ids[i] != ids[j]
  }

  lemma IssuedOnce(c: Config, m: Market, call: Call)
    requires ValidConfig(c) && Sound(c, m)
    ensures Between(Issued(c, m, call), m, After(c, m, call)) && NoneTwice(Issued(c, m, call))
  {
    CountersStep(c, m, call);
  }

  /** Over every run no order id is issued twice, bid ids stay in the lower half of the ids and ask ids in the upper. */
  lemma {:induction false} NoIdIssuedTwice(c: Config, m: Market, calls: seq<Call>)
    requires ValidConfig(c) && Sound(c, m)
    ensures var m' := AfterAll(c, m, calls);
      && NoneTwice(IssuedIn(c, m, calls)) && Between(IssuedIn(c, m, calls), m, m')
      && m.nextBid <= m'.nextBid < ASK_ID_START <= m.nextAsk <= m'.nextAsk < U64_MAX
    decreases calls
  {
    hide After, BooksOk, FreezesOk, SpareKept, Backed, Issued;
    if calls != [] {
      var next, last := After(c, m, calls[0]), AfterAll(c, m, calls);
      PerformKeepsSound(c, m, calls[0]);
      CountersStep(c, m, calls[0]);
      IssuedOnce(c, m, calls[0]);
      NoIdIssuedTwice(c, next, calls[1..]);
      JoinIssued(Issued(c, m, calls[0]), IssuedIn(c, next, calls[1..]), m, next, last);
    }
  }

  lemma JoinIssued(a: seq<OrderId>, b: seq<OrderId>, m: Market, mid: Market, last: Market)
    requires Between(a, m, mid) && Between(b, mid, last) && NoneTwice(a) && NoneTwice(b)
    requires m.nextBid <= mid.nextBid <= last.nextBid < ASK_ID_START <= m.nextAsk <= mid.nextAsk <= last.nextAsk
    ensures Between(a + b, m, last) && NoneTwice(a + b)
  {
  }

  // ---------- issued ids and the orders that appear ----------

  ghost predicate InSide(id: OrderId, levels: Levels) {
    exists p :: p in levels && id in Ids(levels[p].openOrders)
  }

  /** An order with this id rests in one of the books. */
  ghost predicate InBooks(id: OrderId, m: Market) {
    InSide(id, m.bids.levels) || InSide(id, m.asks.levels)
  }

  lemma UpdateLevelIds(levels: Levels, price: Index, orders: seq<Order>, id: OrderId)
    requires Ids(orders) <= if price in levels then Ids(levels[price].openOrders) else {}
    ensures InSide(id, levels[price := Tick(orders)]) ==> InSide(id, levels)
  {
    hide Ids;
  }

  lemma FillKeepsIds(book: Book, price: Index, quantity: nat, id: OrderId)
    ensures InSide(id, FillIn(book, price, quantity).levels) ==> InSide(id, book.levels)
  {
    if price in book.levels {
      RestIds(book.levels[price].openOrders, quantity);
      hide Ids;
      UpdateLevelIds(book.levels, price, Rest(book.levels[price].openOrders, quantity), id);
    }
  }

  lemma MatchKeepsIds(isBid: bool, c: Config, desk: Desk, remain: nat, id: OrderId)
    requires !InSide(id, desk.book.levels)
    ensures MatchFrom(isBid, c, desk, remain).Ok? ==> !InSide(id, MatchFrom(isBid, c, desk, remain).value.book.levels)
  {
    hide PoolLeg, MatchFrom, InSide, FillIn;
    var kept := (d: Desk) => !InSide(id, d.book.levels);
    forall d: Desk, q: nat | kept(d) && PoolLeg(isBid, c, d, q).Ok? ensures kept(PoolLeg(isBid, c, d, q).value) {
      PoolLegKeepsBook(isBid, c, d, q);
    }
    forall d: Desk, p: Index, q: nat | kept(d) && p in d.book.levels && q > 0 ensures kept(BookLeg(d, p, q)) {
      FillKeepsIds(d.book, p, q, id);
    }
    MatchKeeps(isBid, c, desk, remain, kept);
  }

  lemma MatchAddsNoIds(c: Config, m: Market, isBid: bool, orderer: AccountId, quantity: nat, id: OrderId)
    requires MatchOrder(c, m, isBid, orderer, quantity).Ok?
    ensures InBooks(id, MatchOrder(c, m, isBid, orderer, quantity).value) ==> InBooks(id, m)
  {
    hide MatchFrom, Settle, InSide;
    var desk := DeskOf(m, isBid, orderer);
    if !InSide(id, desk.book.levels) {
      MatchKeepsIds(isBid, c, desk, quantity, id);
    }
  }

  lemma CancelAddsNoIds(c: Config, m: Market, owner: AccountId, price: Index, id: OrderId, quantity: nat,
      other: OrderId)
    requires Sound(c, m) && CancelOnSide(m, owner, price, id, quantity).Ok?
    ensures InBooks(other, CancelOnSide(m, owner, price, id, quantity).value) ==> InBooks(other, m)
  {
    var asks := !IsBidId(id);
    hide IsBidId;
    var levels := SideOf(m, asks).levels;
    var orders := levels[price].openOrders;
    assert LevelOk(orders, if asks then ASK_ID_START else 0, if asks then m.nextAsk else m.nextBid);
    CancelKeepsOrder(orders, owner, id, quantity);
    UpdateLevelIds(levels, price, Canceled(orders, owner, id, quantity).value, other);
    hide InSide, Canceled, Ids, Sound;
  }

  /** No resting order has an id that is still to be issued. */
  lemma FreshIds(c: Config, m: Market)
    requires Sound(c, m)
    ensures !InBooks(m.nextBid, m) && !InBooks(m.nextAsk, m)
  {
    forall p | p in m.bids.levels
      ensures m.nextBid !in Ids(m.bids.levels[p].openOrders) && m.nextAsk !in Ids(m.bids.levels[p].openOrders)
    {
      assert LevelOk(m.bids.levels[p].openOrders, 0, m.nextBid);
    }
    forall p | p in m.asks.levels
      ensures m.nextBid !in Ids(m.asks.levels[p].openOrders) && m.nextAsk !in Ids(m.asks.levels[p].openOrders)
    {
      assert LevelOk(m.asks.levels[p].openOrders, ASK_ID_START, m.nextAsk);
    }
    hide Ids;
  }

  /** A placed order is on its side under the issued id, and all others are as before. */
  lemma PlaceAddsId(book: Book, lo: OrderId, id: OrderId, owner: AccountId, price: Index, quantity: nat, other: OrderId)
    requires SideOk(book.levels, lo, id) && lo <= id && quantity > 0
    requires PlaceIn(book, id, owner, price, quantity).Ok?
    ensures var levels := PlaceIn(book, id, owner, price, quantity).value.levels;
      InSide(other, levels) <==> InSide(other, book.levels) || other == id
  {
    var orders, order := if price in book.levels then book.levels[price].openOrders else [], Order(id, owner, quantity);
    assert LevelOk(orders, lo, id);
    assert Ids([]) == {};
    hide SideOk, LevelOk, Placed, Ids, InSide;
    PlacedLevelOk(orders, lo, id, owner, quantity);
    assert [] + [order] == [order];
    AddLevelId(book.levels, price, orders + [order], id, other);
    assert PlaceIn(book, id, owner, price, quantity).value.levels == book.levels[price := Tick(orders + [order])];
  }

  lemma AddLevelId(levels: Levels, price: Index, orders: seq<Order>, id: OrderId, other: OrderId)
    requires Ids(orders) == (if price in levels then Ids(levels[price].openOrders) else {}) + {id}
    ensures InSide(other, levels[price := Tick(orders)]) <==> InSide(other, levels) || other == id
  {
    hide Ids;
    var levels' := levels[price := Tick(orders)];
    if InSide(other, levels) {
      var p :| p in levels && other in Ids(levels[p].openOrders);
      assert p in levels' && other in Ids(levels'[p].openOrders);
    }
    if other == id {
      assert price in levels' && other in Ids(levels'[price].openOrders);
    }
  }

  lemma RestAddsId(c: Config, m: Market, isBid: bool, maker: AccountId, price: Index, quantity: nat, id: OrderId)
    requires Sound(c, m) && quantity > 0 && RestOrder(c, m, isBid, maker, price, quantity).Ok?
    ensures InBooks(id, RestOrder(c, m, isBid, maker, price, quantity).value)
       <==> InBooks(id, m) || id == if isBid then m.nextBid else m.nextAsk
    ensures var m' := RestOrder(c, m, isBid, maker, price, quantity).value;
      if isBid then m'.nextBid == m.nextBid + 1 && m'.nextAsk == m.nextAsk
      else m'.nextAsk == m.nextAsk + 1 && m'.nextBid == m.nextBid
  {
    PlaceAddsId(SideOf(m, !isBid), if isBid then 0 else ASK_ID_START, if isBid then m.nextBid else m.nextAsk,
                maker, price, quantity, id);
    hide InSide, SideOk, FreezesOk, Backed, SharesOk, PlaceIn, CheckedNeed, Freeze, IsBidId;
  }

  /** The orders that appear in the books with a call are exactly those whose ids it issued. */
  lemma IssuedIdsAppear(c: Config, m: Market, call: Call, id: OrderId)
    requires ValidConfig(c) && Sound(c, m)
    ensures InBooks(id, After(c, m, call)) && !InBooks(id, m) <==> id in Issued(c, m, call)
  {
    FreshIds(c, m);
    CountersStep(c, m, call);
    hide Sound, InBooks, MatchOrder, RestOrder, CancelOnSide, LiquidityCall, CurrentPrice;
    if Perform(c, m, call).Ok? {
      match call
      case Taking(isBid, who, quantity) =>
        MatchAddsNoIds(c, m, isBid, who, quantity, id);
        MatchKeepsCounters(c, m, isBid, who, quantity);
      case Limit(isBid, who, price, quantity) =>
        if Marketable(isBid, price, CurrentPrice(c, m).value) {
          MatchAddsNoIds(c, m, isBid, who, quantity, id);
          MatchKeepsCounters(c, m, isBid, who, quantity);
        } else {
          RestAddsId(c, m, isBid, who, price, quantity, id);
        }
      case Cancelling(who, price, cid, quantity) =>
        CancelAddsNoIds(c, m, who, price, cid, quantity, id);
        CancelKeepsCounters(m, who, price, cid, quantity);
      case Providing(who, to, op) =>
        LiquidityCallEffect(c, m, who, to, op);
        SameBooksSameIds(m, After(c, m, call), id);
    }
  }

  lemma MatchKeepsCounters(c: Config, m: Market, isBid: bool, orderer: AccountId, quantity: nat)
    requires MatchOrder(c, m, isBid, orderer, quantity).Ok?
    ensures var m' := MatchOrder(c, m, isBid, orderer, quantity).value;
      m'.nextBid == m.nextBid && m'.nextAsk == m.nextAsk
  {
    hide MatchFrom, Settle;
  }

  lemma CancelKeepsCounters(m: Market, owner: AccountId, price: Index, id: OrderId, quantity: nat)
    requires CancelOnSide(m, owner, price, id, quantity).Ok?
    ensures var m' := CancelOnSide(m, owner, price, id, quantity).value;
      m'.nextBid == m.nextBid && m'.nextAsk == m.nextAsk
  {
    hide CancelIn, IsBidId;
  }

  lemma SameBooksSameIds(m: Market, m': Market, id: OrderId)
    requires m'.bids == m.bids && m'.asks == m.asks
    ensures InBooks(id, m') == InBooks(id, m)
  {
  }

  /** Over every run: whatever rests at the end rested at the start or was issued on the way. */
  lemma {:induction false} OrdersComeFromIssues(c: Config, m: Market, calls: seq<Call>, id: OrderId)
    requires ValidConfig(c) && Sound(c, m)
    ensures InBooks(id, AfterAll(c, m, calls)) ==> InBooks(id, m) || id in IssuedIn(c, m, calls)
    decreases calls
  {
    hide Sound, After, InBooks, Issued;
    if calls != [] {
      PerformKeepsSound(c, m, calls[0]);
      IssuedIdsAppear(c, m, calls[0], id);
      OrdersComeFromIssues(c, After(c, m, calls[0]), calls[1..], id);
    }
  }

  /** In a sound market the id of a resting order names its book, so a cancellation reaches it. */
  lemma CancellationReachesOrder(c: Config, m: Market, asks: bool, price: Index, i: nat, quantity: nat)
    requires Sound(c, m)
    requires price in (if asks then m.asks.levels else m.bids.levels)
    requires i < |(if asks then m.asks.levels else m.bids.levels)[price].openOrders|
    requires quantity <= (if asks then m.asks.levels else m.bids.levels)[price].openOrders[i].quantity
    ensures var o := (if asks then m.asks.levels else m.bids.levels)[price].openOrders[i];
      && IsBidId(o.id) == !asks
      && CancelOnSide(m, o.owner, price, o.id, quantity).Ok?
  {
    var levels := if asks then m.asks.levels else m.bids.levels;
    var orders := levels[price].openOrders;
    assert LevelOk(orders, if asks then ASK_ID_START else 0, if asks then m.nextAsk else m.nextBid);
    assert orders[i].id in Ids(orders);
    IdRanges(orders[i].id);
    CancelNeedsOwner(orders, orders[i].owner, orders[i].id, quantity);
    hide Canceled, IsBidId;
  }

  // ---------- the pool price inside the spread ----------

  /** The pool price is above every bid and not above any ask. */
  ghost predicate Inside(c: Config, m: Market) {
    && m.pool.base > 0 && m.pool.quote > 0
    && (forall p | p in m.bids.levels :: p < PriceOf(c.decimals, m.pool.base, m.pool.quote))
    && (forall p | p in m.asks.levels :: PriceOf(c.decimals, m.pool.base, m.pool.quote) <= p)
  }

  /** Orders to buy, resting orders to sell, and cancellations. */
  ghost predicate Gentle(c: Config, m: Market, call: Call) {
    match call
    case Taking(isBid, _, _) => isBid
    case Limit(isBid, _, price, _) =>
      isBid || (m.pool.base > 0 && price > PriceOf(c.decimals, m.pool.base, m.pool.quote))
    case Cancelling(_, _, _, _) => true
    case Providing(_, _, _) => false
  }

  lemma BidMatchKeepsInside(c: Config, m: Market, orderer: AccountId, quantity: nat)
    requires Inside(c, m) && MatchOrder(c, m, true, orderer, quantity).Ok?
    ensures Inside(c, MatchOrder(c, m, true, orderer, quantity).value)
  {
    hide PriceOf, MatchFrom, Settle;
    BidMatchKeepsPriceInside(c, DeskOf(m, true, orderer), quantity);
  }

  lemma RestKeepsInside(c: Config, m: Market, isBid: bool, maker: AccountId, price: Index, quantity: nat)
    requires Inside(c, m) && RestOrder(c, m, isBid, maker, price, quantity).Ok?
    requires !Marketable(isBid, price, PriceOf(c.decimals, m.pool.base, m.pool.quote))
    ensures Inside(c, RestOrder(c, m, isBid, maker, price, quantity).value)
  {
    hide PriceOf, CheckedNeed, Freeze, Placed, CheckedIncrease;
    var m' := RestOrder(c, m, isBid, maker, price, quantity).value;
    assert m'.bids.levels.Keys <= m.bids.levels.Keys + (if isBid then {price} else {});
    assert m'.asks.levels.Keys <= m.asks.levels.Keys + (if isBid then {} else {price});
  }

  lemma CancelKeepsInside(c: Config, m: Market, owner: AccountId, price: Index, id: OrderId, quantity: nat)
    requires Inside(c, m) && CancelOnSide(m, owner, price, id, quantity).Ok?
    ensures Inside(c, CancelOnSide(m, owner, price, id, quantity).value)
  {
    hide PriceOf, IsBidId, Canceled;
  }

  /** Every bid match with all its legs, every resting placement and every cancellation keeps the spread. */
  lemma GentleCallKeepsInside(c: Config, m: Market, call: Call)
    requires ValidConfig(c) && Inside(c, m) && Gentle(c, m, call)
    ensures Inside(c, After(c, m, call))
  {
    hide Inside, PriceOf, MatchOrder, RestOrder, CancelOnSide;
    if Perform(c, m, call).Ok? {
      match call
      case Taking(_, who, quantity) => BidMatchKeepsInside(c, m, who, quantity);
      case Limit(isBid, who, price, quantity) =>
        if Marketable(isBid, price, CurrentPrice(c, m).value) {
          BidMatchKeepsInside(c, m, who, quantity);
        } else {
          RestKeepsInside(c, m, isBid, who, price, quantity);
        }
      case Cancelling(who, price, id, quantity) => CancelKeepsInside(c, m, who, price, id, quantity);
    }
  }

  ghost predicate GentleRun(c: Config, m: Market, calls: seq<Call>)
    requires ValidConfig(c)
    decreases calls
  {
    calls != [] ==> Gentle(c, m, calls[0]) && GentleRun(c, After(c, m, calls[0]), calls[1..])
  }

  lemma {:induction false} GentleRunKeepsInside(c: Config, m: Market, calls: seq<Call>)
    requires ValidConfig(c) && Inside(c, m) && GentleRun(c, m, calls)
    ensures Inside(c, AfterAll(c, m, calls))
    decreases calls
  {
    hide Inside, After, Gentle;
    if calls != [] {
      GentleCallKeepsInside(c, m, calls[0]);
      GentleRunKeepsInside(c, After(c, m, calls[0]), calls[1..]);
    }
  }

  // ---------- asks stay above the pool, whoever trades ----------

  /** No ask is below the pool price. */
  ghost predicate AsksAbove(c: Config, m: Market) {
    && m.pool.base > 0 && m.pool.quote > 0
    && NoneBelow(PriceOf(c.decimals, m.pool.base, m.pool.quote), m.asks.levels)
  }

  lemma MatchKeepsAsksAbove(c: Config, m: Market, isBid: bool, orderer: AccountId, quantity: nat)
    requires AsksAbove(c, m) && MatchOrder(c, m, isBid, orderer, quantity).Ok?
    ensures AsksAbove(c, MatchOrder(c, m, isBid, orderer, quantity).value)
  {
    hide PriceOf, MatchFrom, Settle;
    if isBid {
      BidMatchKeepsPriceInside(c, DeskOf(m, true, orderer), quantity);
    } else {
      AskMatchLowersPrice(c, DeskOf(m, false, orderer), quantity);
    }
  }

  lemma RestKeepsAsksAbove(c: Config, m: Market, isBid: bool, maker: AccountId, price: Index, quantity: nat)
    requires AsksAbove(c, m) && RestOrder(c, m, isBid, maker, price, quantity).Ok?
    requires !Marketable(isBid, price, PriceOf(c.decimals, m.pool.base, m.pool.quote))
    ensures AsksAbove(c, RestOrder(c, m, isBid, maker, price, quantity).value)
  {
    hide PriceOf, CheckedNeed, Freeze, Placed, CheckedIncrease;
    var m' := RestOrder(c, m, isBid, maker, price, quantity).value;
    assert m'.asks.levels.Keys <= m.asks.levels.Keys + (if isBid then {} else {price});
  }

  lemma CancelKeepsAsksAbove(c: Config, m: Market, owner: AccountId, price: Index, id: OrderId, quantity: nat)
    requires AsksAbove(c, m) && CancelOnSide(m, owner, price, id, quantity).Ok?
    ensures AsksAbove(c, CancelOnSide(m, owner, price, id, quantity).value)
  {
    hide PriceOf, IsBidId, Canceled;
  }

  /** Market and limit orders of both directions and cancellations keep every ask at or above the pool price. */
  lemma TradingKeepsAsksAbove(c: Config, m: Market, call: Call)
    requires ValidConfig(c) && AsksAbove(c, m) && !call.Providing?
    ensures AsksAbove(c, After(c, m, call))
  {
    hide AsksAbove, PriceOf, MatchOrder, RestOrder, CancelOnSide;
    if Perform(c, m, call).Ok? {
      match call
      case Taking(isBid, who, quantity) => MatchKeepsAsksAbove(c, m, isBid, who, quantity);
      case Limit(isBid, who, price, quantity) =>
        if Marketable(isBid, price, CurrentPrice(c, m).value) {
          MatchKeepsAsksAbove(c, m, isBid, who, quantity);
        } else {
          RestKeepsAsksAbove(c, m, isBid, who, price, quantity);
        }
      case Cancelling(who, price, id, quantity) => CancelKeepsAsksAbove(c, m, who, price, id, quantity);
    }
  }

  lemma {:induction false} TradingRunKeepsAsksAbove(c: Config, m: Market, calls: seq<Call>)
    requires ValidConfig(c) && AsksAbove(c, m) && forall call | call in calls :: !call.Providing?
    ensures AsksAbove(c, AfterAll(c, m, calls))
    decreases calls
  {
    hide AsksAbove, After;
    if calls != [] {
      TradingKeepsAsksAbove(c, m, calls[0]);
      TradingRunKeepsAsksAbove(c, After(c, m, calls[0]), calls[1..]);
    }
  }

  // ---------- what a share is worth ----------

  /** No call at all, trading included, lowers the reserves' product per squared share. */
  lemma CallRaisesWorth(c: Config, m: Market, call: Call)
    requires ValidConfig(c) && Backed(m.pool) && m.pool.supply > 0
    ensures WorthAtLeast(After(c, m, call).pool, m.pool)
    ensures Backed(After(c, m, call).pool) && After(c, m, call).pool.supply > 0
  {
    if call.Providing? {
      LiquidityCallEffect(c, m, call.who, call.to, call.op);
      ApplyRaisesWorth(c.terms, m.pool, call.op);
      ApplyKeepsBacking(c.terms, m.pool, call.op);
      hide LiquidityCall, Apply;
    } else {
      TradingRaisesProduct(c, m, call);
      hide After;
      ProductRaisesWorth(m.pool, After(c, m, call).pool);
      ProductKeepsBacking(m.pool, After(c, m, call).pool);
    }
  }

  lemma TradingRaisesProduct(c: Config, m: Market, call: Call)
    requires ValidConfig(c) && !call.Providing?
    ensures var pool := After(c, m, call).pool;
      pool.base * pool.quote >= m.pool.base * m.pool.quote && pool.supply == m.pool.supply
  {
    hide MatchFrom, Settle, PlaceIn, CancelIn, CheckedNeed, Freeze, CurrentPrice, IsBidId, CheckedIncrease;
    if call.Taking? || call.Limit? {
      MatchRaisesProduct(call.isBid, c, DeskOf(m, call.isBid, call.who), call.quantity);
    }
  }

  /** Over every run of calls of every kind the product per squared share never falls and shares never vanish. */
  lemma {:induction false} RunsRaiseWorth(c: Config, m: Market, calls: seq<Call>)
    requires ValidConfig(c) && Backed(m.pool) && m.pool.supply > 0
    ensures WorthAtLeast(AfterAll(c, m, calls).pool, m.pool) && AfterAll(c, m, calls).pool.supply > 0
    decreases calls
  {
    hide After, Backed;
    if calls != [] {
      var next := After(c, m, calls[0]);
      CallRaisesWorth(c, m, calls[0]);
      RunsRaiseWorth(c, next, calls[1..]);
      WorthTransitive(m.pool, next.pool, AfterAll(c, next, calls[1..]).pool);
      hide WorthAtLeast;
    }
  }

  // ---------- balances cover freezes ----------

  lemma PoolLegKeepsSolvent(isBid: bool, c: Config, desk: Desk, quantity: nat)
    requires Solvent(desk.ledger) && PoolLeg(isBid, c, desk, quantity).Ok?
    ensures Solvent(PoolLeg(isBid, c, desk, quantity).value.ledger)
  {
    hide FillPool, PaySwap, Solvent;
    PayKeepsSolvent(isBid, desk.ledger, desk.taker, desk.taker, FillPool(isBid, c, desk.pool, quantity).value.1);
  }

  lemma LegsKeepSolvent(isBid: bool, c: Config, desk: Desk, remain: nat)
    requires Solvent(desk.ledger)
    ensures MatchFrom(isBid, c, desk, remain).Ok? ==> Solvent(MatchFrom(isBid, c, desk, remain).value.ledger)
  {
    hide PoolLeg, MatchFrom, Solvent;
    var kept := (d: Desk) => Solvent(d.ledger);
    forall d: Desk, q: nat | kept(d) && PoolLeg(isBid, c, d, q).Ok? ensures kept(PoolLeg(isBid, c, d, q).value) {
      PoolLegKeepsSolvent(isBid, c, d, q);
    }
    MatchKeeps(isBid, c, desk, remain, kept);
  }

  lemma MatchKeepsSolvent(c: Config, m: Market, isBid: bool, orderer: AccountId, quantity: nat)
    requires Solvent(m.ledger)
    ensures MatchOrder(c, m, isBid, orderer, quantity).Ok? ==>
      Solvent(MatchOrder(c, m, isBid, orderer, quantity).value.ledger)
  {
    hide MatchFrom, Settle, Solvent;
    var desk := DeskOf(m, isBid, orderer);
    LegsKeepSolvent(isBid, c, desk, quantity);
    if MatchFrom(isBid, c, desk, quantity).Ok? {
      var after := MatchFrom(isBid, c, desk, quantity).value;
      SettleKeepsSolvent(isBid, c.decimals, after.ledger, orderer, after.trades);
    }
  }

  lemma LiquidityKeepsSolvent(c: Config, m: Market, who: AccountId, to: AccountId, op: Op)
    requires Solvent(m.ledger) && LiquidityCall(c, m, who, to, op).Ok?
    ensures Solvent(LiquidityCall(c, m, who, to, op).value.ledger)
  {
    var l := m.ledger;
    hide Solvent, Withdraw, Credit, TakenAmounts, MintedFor, RemoveLiquidity, SwapExactIn, SwapExactOut;
    match op
    case Add(_, _, _, _) =>
      var (base, quote) :=
        TakenAmounts(c.terms, m.pool, op.baseDesired, op.quoteDesired, op.baseMin, op.quoteMin).value;
      PairKeepsSolvent(l, who, base, quote);
    case Remove(_, _, _, _) =>
      var w := RemoveLiquidity(c.terms, m.pool, op.burn, op.withdrawalFee, op.baseMin, op.quoteMin).value;
      MovementsKeepSolvent(l, to, BaseAsset, w.base);
      MovementsKeepSolvent(Credit(l, to, BaseAsset, w.base), to, QuoteAsset, w.quote);
    case ExactIn(paying, x) =>
      var out := SwapExactIn(c.terms, m.pool, paying, x).value.1;
      PayKeepsSolvent(paying == Quoted, l, who, to, if paying == Base then Swap(x, out) else Swap(out, x));
    case ExactOut(paying, y) =>
      var paid := SwapExactOut(c.terms, m.pool, paying, y).value.1;
      PayKeepsSolvent(paying == Quoted, l, who, to, if paying == Base then Swap(paid, y) else Swap(y, paid));
    case Donate(b, q) => PairKeepsSolvent(l, who, b, q);
  }

  lemma PairKeepsSolvent(l: Ledger, who: AccountId, base: nat, quote: nat)
    requires Solvent(l) && Withdraw(l, who, BaseAsset, base).Ok?
    ensures var l1 := Withdraw(l, who, BaseAsset, base).value;
      Withdraw(l1, who, QuoteAsset, quote).Ok? ==> Solvent(Withdraw(l1, who, QuoteAsset, quote).value)
  {
    hide Solvent, Withdraw;
    MovementsKeepSolvent(l, who, BaseAsset, base);
    MovementsKeepSolvent(Withdraw(l, who, BaseAsset, base).value, who, QuoteAsset, quote);
  }

  lemma PayKeepsSolvent(isBid: bool, l: Ledger, who: AccountId, to: AccountId, s: Swap)
    requires Solvent(l)
    ensures PaySwap(isBid, l, who, to, s).Ok? ==> Solvent(PaySwap(isBid, l, who, to, s).value)
  {
    hide Solvent, Withdraw, Credit;
    var (inAsset, paid, outAsset, got) :=
      if isBid then (QuoteAsset, s.quote, BaseAsset, s.base) else (BaseAsset, s.base, QuoteAsset, s.quote);
    MovementsKeepSolvent(l, who, inAsset, paid);
    if Withdraw(l, who, inAsset, paid).Ok? {
      MovementsKeepSolvent(Withdraw(l, who, inAsset, paid).value, to, outAsset, got);
    }
  }

  lemma CallKeepsSolvent(c: Config, m: Market, call: Call)
    requires ValidConfig(c) && Solvent(m.ledger)
    ensures Solvent(After(c, m, call).ledger)
  {
    hide Solvent, MatchOrder, LiquidityCall, CurrentPrice, CheckedNeed, PlaceIn, CancelIn, IsBidId, Freeze;
    match call
    case Taking(isBid, who, quantity) => MatchKeepsSolvent(c, m, isBid, who, quantity);
    case Limit(isBid, who, price, quantity) =>
      MatchKeepsSolvent(c, m, isBid, who, quantity);
      if CheckedNeed(!isBid, c.decimals, price, quantity).Ok? {
        var amount := CheckedNeed(!isBid, c.decimals, price, quantity).value;
        MovementsKeepSolvent(m.ledger, who, FrozenAsset(!isBid), amount);
      }
    case Cancelling(who, price, id, quantity) =>
    case Providing(who, to, op) =>
      if LiquidityCall(c, m, who, to, op).Ok? {
        LiquidityKeepsSolvent(c, m, who, to, op);
      }
  }

  /** Over every run of calls balances stay above freezes. */
  lemma {:induction false} EveryRunIsSolvent(c: Config, m: Market, calls: seq<Call>)
    requires ValidConfig(c) && Solvent(m.ledger)
    ensures Solvent(AfterAll(c, m, calls).ledger)
    decreases calls
  {
    hide After, Solvent;
    if calls != [] {
      CallKeepsSolvent(c, m, calls[0]);
      EveryRunIsSolvent(c, After(c, m, calls[0]), calls[1..]);
    }
  }

  /**
    In every market that such a run reaches, a match that got as far as its settlement fails there only for overflow or
    because the taker cannot spend what was traded; makers always deliver.
   */
  lemma MakersDeliver(c: Config, m: Market, isBid: bool, orderer: AccountId, quantity: nat)
    requires Sound(c, m) && Solvent(m.ledger) && MatchFrom(isBid, c, DeskOf(m, isBid, orderer), quantity).Ok?
    ensures MatchOrder(c, m, isBid, orderer, quantity).Err? ==>
      var after := MatchFrom(isBid, c, DeskOf(m, isBid, orderer), quantity).value;
      || Overflows(isBid, c.decimals, after.trades)
      || Free(after.ledger, orderer, FrozenAsset(!isBid)) < TradeSum(after.trades)
  {
    var desk := DeskOf(m, isBid, orderer);
    assert FreezesOk(c, m);
    hide MatchFrom, Settle, Solvent, BookNeed, TradesNeed, FrozenOf, Free, Overflows, Sound;
    var after := MatchFrom(isBid, c, desk, quantity).value;
    LegsKeepSolvent(isBid, c, desk, quantity);
    forall who
      ensures FrozenOf(after.ledger, who, FrozenAsset(isBid)) >= TradesNeed(isBid, c.decimals, after.trades, who)
    {
      MatchKeepsFrozen(isBid, c, desk, quantity, who, FrozenAsset(isBid));
      MatchReleasesWithinNeed(isBid, isBid, c, desk, quantity, who);
      NoTradesNoNeed(isBid, c.decimals, who);
      assert Spare(c, m, isBid, who) >= 0;
    }
    SettleFailsOnlyForTaker(isBid, c.decimals, after.ledger, orderer, after.trades);
  }
}

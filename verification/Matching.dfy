/**
  The matching engine: an order is filled by turns from the pool, up to the best opposing price, and from the
  book at that price, until nothing remains.

  `MatchFrom` is one matching run as a function of the opposing book, the pool and the accounts. The taker pays
  for each pool leg as it happens. The run records what it took: `swaps` are the pool legs, `trades` the fills of
  resting orders, in the order in which they happen; the trades are settled afterwards.
 */
module Matching {
  import opened Bits
  import opened Amm
  import opened Errors
  import opened Ledgers
  import opened Liquidity
  import opened OrderBook
  import opened SwapSearch
  import opened Ticks
  import opened Wrappers

  /** What is fixed when a pool is created. */
  datatype Config = Config(terms: Terms, decimals: Decimals, tickSize: nat, lotSize: nat)

  /** A fill of a resting order at its price. */
  datatype Trade = Trade(owner: AccountId, price: Index, quantity: nat)

  /** A pool leg: `base` of the base asset against `quote` of the quote asset. */
  datatype Swap = Swap(base: nat, quote: nat)

  /** The opposing book, the pool and the accounts during a match of `taker`, and what was taken so far. */
  datatype Desk = Desk(book: Book, pool: Pool, taker: AccountId, ledger: Ledger, swaps: seq<Swap>, trades: seq<Trade>)

  /** Errors of the asset libraries are not told apart. */
  function PoolError(e: LiquidityError): MarketError {
    match e
    case Arithmetic(a) => Refused(a)
    case NotExpendable => LedgerRefused
    case NotEnoughShares => LedgerRefused
    case _ => PoolRefused(e)
  }

  /** `do_fill_pool`: a bid buys exactly `quantity`, an ask sells exactly `quantity`. */
  function FillPool(isBid: bool, c: Config, pool: Pool, quantity: nat): Result<(Pool, Swap), MarketError> {
    if isBid then
      match SwapExactOut(c.terms, pool, Quoted, quantity)
      case Ok((after, paid)) => Ok((after, Swap(quantity, paid)))
      case Err(e) => Err(PoolError(e))
    else
      match SwapExactIn(c.terms, pool, Base, quantity)
      case Ok((after, received)) => Ok((after, Swap(quantity, received)))
      case Err(e) => Err(PoolError(e))
  }

  /** A swap as `who` pays for it and `to` receives its proceeds. */
  function PaySwap(isBid: bool, l: Ledger, who: AccountId, to: AccountId, s: Swap): Result<Ledger, MarketError> {
    if isBid then
      var paid :- Withdraw(l, who, QuoteAsset, s.quote);
      Ok(Credit(paid, to, BaseAsset, s.base))
    else
      var paid :- Withdraw(l, who, BaseAsset, s.base);
      Ok(Credit(paid, to, QuoteAsset, s.quote))
  }

  /** A pool leg, which the taker pays for at once. */
  function PoolLeg(isBid: bool, c: Config, desk: Desk, quantity: nat): Result<Desk, MarketError> {
    var (pool, swap) :- FillPool(isBid, c, desk.pool, quantity);
    var ledger :- PaySwap(isBid, desk.ledger, desk.taker, desk.taker, swap);
    Ok(desk.(pool := pool, ledger := ledger, swaps := desk.swaps + [swap]))
  }

  function AtPrice(price: Index, fills: seq<Fill>): (ts: seq<Trade>)
    ensures |ts| == |fills|
    ensures forall i | 0 <= i < |fills| :: ts[i] == Trade(fills[i].owner, price, fills[i].quantity)
  {
    if fills == [] then [] else [Trade(fills[0].owner, price, fills[0].quantity)] + AtPrice(price, fills[1..])
  }

  /** The fills `do_fill_book` receives: none when the level had nothing to give. */
  function BookFills(book: Book, price: Index, quantity: nat): seq<Fill> {
    match FillsAt(book, price, quantity)
    case Some(fills) => fills
    case None => []
  }

  /** `do_fill_book`. */
  function BookLeg(desk: Desk, price: Index, quantity: nat): Desk {
    desk.(book := FillIn(desk.book, price, quantity),
          trades := desk.trades + AtPrice(price, BookFills(desk.book, price, quantity)))
  }

  /** What the book leg took off the order. */
  function BookFilled(book: Book, price: Index, quantity: nat): (filled: nat)
    ensures filled <= quantity
  {
    var fills := BookFills(book, price, quantity);
    if price in book.levels then
      FillConserves(book.levels[price].openOrders, quantity);
      SumFills(fills)
    else 0
  }

  /** A round at the best price finishes the order or uses up the level. */
  lemma BookLegUsesUpLevel(book: Book, price: Index, quantity: nat)
    requires price in book.levels && quantity > 0
    ensures var total := Total(book.levels[price].openOrders);
      BookFilled(book, price, quantity) == if quantity <= total then quantity else total
    ensures BookFilled(book, price, quantity) < quantity ==> FillIn(book, price, quantity) == Without(book, price)
    ensures BookFilled(book, price, quantity) == quantity ==>
      FillIn(book, price, quantity).levels.Keys <= book.levels.Keys
  {
    var orders := book.levels[price].openOrders;
    FillConserves(orders, quantity);
    LevelUsedUp(orders, quantity);
  }

  lemma WithoutIsSmaller(book: Book, price: Index)
    requires price in book.levels
    ensures |Without(book, price).levels| == |book.levels| - 1
  {
    assert (book.levels - {price}).Keys == book.levels.Keys - {price};
    assert |book.levels.Keys - {price}| == |book.levels.Keys| - 1;
  }

  lemma FillNeverGrows(book: Book, price: Index, quantity: nat)
    ensures |FillIn(book, price, quantity).levels| <= |book.levels|
  {
    if price in book.levels {
      WithoutIsSmaller(book, price);
      var after := FillIn(book, price, quantity).levels;
      assert after.Keys <= book.levels.Keys;
      SubsetSize(after.Keys, book.levels.Keys);
    }
  }

  lemma {:induction false} SubsetSize(a: set<Index>, b: set<Index>)
    requires a <= b
    ensures |a| <= |b|
  {
    if a != {} {
      var x :| x in a;
      SubsetSize(a - {x}, b - {x});
    }
  }

  lemma PoolLegKeepsBook(isBid: bool, c: Config, desk: Desk, quantity: nat)
    requires PoolLeg(isBid, c, desk, quantity).Ok?
    ensures PoolLeg(isBid, c, desk, quantity).value.trades == desk.trades
    ensures PoolLeg(isBid, c, desk, quantity).value.book == desk.book
  {
    hide FillPool;
  }

  /** One turn: the pool leg, then the book leg at `target`; what remains of the order afterwards. */
  function Turn(isBid: bool, c: Config, desk: Desk, target: Index, swap: nat, remain: nat)
    : Result<(Desk, nat), MarketError>
    requires swap < remain
  {
    var swapped :- if swap == 0 then Ok(desk) else PoolLeg(isBid, c, desk, swap);
    var left := remain - swap;
    Ok((BookLeg(swapped, target, left), left - BookFilled(swapped.book, target, left)))
  }

  lemma TurnShrinks(isBid: bool, c: Config, desk: Desk, target: Index, swap: nat, remain: nat)
    requires swap < remain && target in desk.book.levels
    ensures Turn(isBid, c, desk, target, swap, remain).Ok? ==>
      var (after, left) := Turn(isBid, c, desk, target, swap, remain).value;
      && |after.book.levels| <= |desk.book.levels|
      && (left > 0 ==> |after.book.levels| < |desk.book.levels| && after.book == Without(desk.book, target))
      && after.book == FillIn(desk.book, target, remain - swap)
  {
    hide PoolLeg, FillIn, BookFilled, Without;
    BookLegUsesUpLevel(desk.book, target, remain - swap);
    WithoutIsSmaller(desk.book, target);
    FillNeverGrows(desk.book, target, remain - swap);
    if swap > 0 && PoolLeg(isBid, c, desk, swap).Ok? {
      PoolLegKeepsBook(isBid, c, desk, swap);
    }
  }

  /** The matching loop of `do_match_order`, from any point of it. */
  ghost function MatchFrom(isBid: bool, c: Config, desk: Desk, remain: nat): Result<Desk, MarketError>
    decreases |desk.book.levels|, remain
  {
    if remain == 0 then Ok(desk)
    else
      match Best(desk.book.levels, isBid)
      case None => PoolLeg(isBid, c, desk, remain)
      case Some(target) =>
        var swap :- MaxSwap(isBid, target, c.decimals, c.terms.fee, desk.pool.base, desk.pool.quote, remain);
        if remain <= swap then PoolLeg(isBid, c, desk, remain)
        else
          var (after, left) :- Turn(isBid, c, desk, target, swap, remain);
          TurnShrinks(isBid, c, desk, target, swap, remain);
          MatchFrom(isBid, c, after, left)
  }

  /** An induction principle: what a desk has and both kinds of legs keep, it has after the whole match. */
  lemma {:induction false} MatchKeeps(isBid: bool, c: Config, desk: Desk, remain: nat, kept: Desk -> bool)
    requires kept(desk)
    requires forall d: Desk, q: nat | kept(d) && PoolLeg(isBid, c, d, q).Ok? :: kept(PoolLeg(isBid, c, d, q).value)
    requires forall d: Desk, p: Index, q: nat | kept(d) && p in d.book.levels && q > 0 :: kept(BookLeg(d, p, q))
    ensures MatchFrom(isBid, c, desk, remain).Ok? ==> kept(MatchFrom(isBid, c, desk, remain).value)
    decreases |desk.book.levels|, remain
  {
    hide MaxSwap, PoolLeg, BookLeg, BookFilled;
    if remain > 0 && MatchFrom(isBid, c, desk, remain).Ok? {
      var best := Best(desk.book.levels, isBid);
      if best.Some? {
        var swap := MaxSwap(isBid, best.value, c.decimals, c.terms.fee, desk.pool.base, desk.pool.quote, remain).value;
        if swap < remain {
          if swap > 0 {
            PoolLegKeepsBook(isBid, c, desk, swap);
          }
          var (after, left) := Turn(isBid, c, desk, best.value, swap, remain).value;
          TurnShrinks(isBid, c, desk, best.value, swap, remain);
          MatchKeeps(isBid, c, after, left, kept);
        }
      }
    }
  }

  // ---------- conservation ----------

  function SwapSum(swaps: seq<Swap>): nat {
    if swaps == [] then 0 else swaps[0].base + SwapSum(swaps[1..])
  }

  function TradeSum(trades: seq<Trade>): nat {
    if trades == [] then 0 else trades[0].quantity + TradeSum(trades[1..])
  }

  lemma {:induction false} SwapSumAppend(s: seq<Swap>, t: seq<Swap>)
    ensures SwapSum(s + t) == SwapSum(s) + SwapSum(t)
  {
    if s == [] {
      assert s + t == t;
    } else {
      assert (s + t)[1..] == s[1..] + t;
      SwapSumAppend(s[1..], t);
    }
  }

  lemma {:induction false} TradeSumAppend(s: seq<Trade>, t: seq<Trade>)
    ensures TradeSum(s + t) == TradeSum(s) + TradeSum(t)
  {
    if s == [] {
      assert s + t == t;
    } else {
      assert (s + t)[1..] == s[1..] + t;
      TradeSumAppend(s[1..], t);
    }
  }

  lemma {:induction false} AtPriceSum(price: Index, fills: seq<Fill>)
    ensures TradeSum(AtPrice(price, fills)) == SumFills(fills)
  {
    if fills != [] {
      AtPriceSum(price, fills[1..]);
      assert AtPrice(price, fills)[1..] == AtPrice(price, fills[1..]);
    }
  }

  ghost function Taken(desk: Desk): nat {
    SwapSum(desk.swaps) + TradeSum(desk.trades)
  }

  lemma PoolLegTakes(isBid: bool, c: Config, desk: Desk, quantity: nat)
    requires PoolLeg(isBid, c, desk, quantity).Ok?
    ensures Taken(PoolLeg(isBid, c, desk, quantity).value) == Taken(desk) + quantity
  {
    var swap := FillPool(isBid, c, desk.pool, quantity).value.1;
    assert swap.base == quantity;
    hide FillPool;
    SwapSumAppend(desk.swaps, [swap]);
  }

  lemma TurnTakes(isBid: bool, c: Config, desk: Desk, target: Index, swap: nat, remain: nat)
    requires swap < remain && target in desk.book.levels && Turn(isBid, c, desk, target, swap, remain).Ok?
    ensures var (after, left) := Turn(isBid, c, desk, target, swap, remain).value;
      Taken(after) + left == Taken(desk) + remain
  {
    if swap > 0 {
      PoolLegTakes(isBid, c, desk, swap);
    }
    var swapped := if swap == 0 then desk else PoolLeg(isBid, c, desk, swap).value;
    hide PoolLeg;
    var fills := BookFills(desk.book, target, remain - swap);
    AtPriceSum(target, fills);
    TradeSumAppend(swapped.trades, AtPrice(target, fills));
  }

  /** Pool legs and book fills add up to exactly the order. */
  lemma {:induction false} MatchFillsOrder(isBid: bool, c: Config, desk: Desk, remain: nat)
    ensures MatchFrom(isBid, c, desk, remain).Ok? ==>
      Taken(MatchFrom(isBid, c, desk, remain).value) == Taken(desk) + remain
    decreases |desk.book.levels|, remain
  {
    hide MaxSwap, PoolLeg, Turn, Taken;
    if remain > 0 && MatchFrom(isBid, c, desk, remain).Ok? {
      var best := Best(desk.book.levels, isBid);
      if best.None? {
        PoolLegTakes(isBid, c, desk, remain);
      } else {
        var swap := MaxSwap(isBid, best.value, c.decimals, c.terms.fee, desk.pool.base, desk.pool.quote, remain).value;
        if remain <= swap {
          PoolLegTakes(isBid, c, desk, remain);
        } else {
          var (after, left) := Turn(isBid, c, desk, best.value, swap, remain).value;
          TurnShrinks(isBid, c, desk, best.value, swap, remain);
          TurnTakes(isBid, c, desk, best.value, swap, remain);
          MatchFillsOrder(isBid, c, after, left);
        }
      }
    }
  }

  // ---------- price-time priority ----------

  /** A resting order as a taker sees it. */
  datatype Offer = Offer(id: OrderId, owner: AccountId, price: Index, quantity: nat)

  ghost function Offers(price: Index, orders: seq<Order>): (os: seq<Offer>)
    ensures |os| == |orders|
    ensures forall i | 0 <= i < |os| :: os[i] == Offer(orders[i].id, orders[i].owner, price, orders[i].quantity)
  {
    seq(|orders|, i requires 0 <= i < |orders| => Offer(orders[i].id, orders[i].owner, price, orders[i].quantity))
  }

  /** The offers of a level that has something to give. */
  ghost function OffersAt(price: Index, orders: seq<Order>): seq<Offer> {
    if Total(orders) == 0 then [] else Offers(price, orders)
  }

  /** All offers of a side: best price first, and at one price the oldest order first. */
  ghost function Queue(levels: Levels, asks: bool): seq<Offer>
    decreases |levels|
  {
    match Best(levels, asks)
    case None => []
    case Some(p) =>
      WithoutIsSmaller(Book(levels, 0), p);
      OffersAt(p, levels[p].openOrders) + Queue(levels - {p}, asks)
  }

  /** Taking `q` from the front of a queue. */
  ghost function Sweep(offers: seq<Offer>, q: nat): seq<Trade> {
    if offers == [] || q == 0 then []
    else if offers[0].quantity >= q then [Trade(offers[0].owner, offers[0].price, q)]
    else [Trade(offers[0].owner, offers[0].price, offers[0].quantity)] + Sweep(offers[1..], q - offers[0].quantity)
  }

  ghost function OfferSum(offers: seq<Offer>): nat {
    if offers == [] then 0 else offers[0].quantity + OfferSum(offers[1..])
  }

  lemma {:induction false} OfferSumIsTotal(price: Index, orders: seq<Order>)
    ensures OfferSum(Offers(price, orders)) == Total(orders)
  {
    if orders != [] {
      assert Offers(price, orders)[1..] == Offers(price, orders[1..]);
      OfferSumIsTotal(price, orders[1..]);
    }
  }

  lemma {:induction false} SweepOfLevel(price: Index, orders: seq<Order>, q: nat)
    ensures Sweep(Offers(price, orders), q) == AtPrice(price, Fills(orders, q))
  {
    if orders != [] && q > 0 {
      assert Offers(price, orders)[1..] == Offers(price, orders[1..]);
      if orders[0].quantity < q {
        SweepOfLevel(price, orders[1..], q - orders[0].quantity);
      }
    }
  }

  /** A sweep that the first part of a queue can satisfy does not reach the second. */
  lemma {:induction false} SweepStaysInFront(a: seq<Offer>, b: seq<Offer>, q: nat)
    requires q <= OfferSum(a)
    ensures Sweep(a + b, q) == Sweep(a, q)
  {
    if a != [] && q > 0 && a[0].quantity < q {
      assert (a + b)[1..] == a[1..] + b;
      SweepStaysInFront(a[1..], b, q - a[0].quantity);
    }
  }

  /** One step of a sweep. */
  lemma SweepFirst(offers: seq<Offer>, q: nat)
    requires offers != [] && q > 0
    ensures var first := offers[0];
      Sweep(offers, q)
      == if first.quantity >= q then [Trade(first.owner, first.price, q)]
         else [Trade(first.owner, first.price, first.quantity)] + Sweep(offers[1..], q - first.quantity)
  {
  }

  lemma SweepNothing(offers: seq<Offer>, q: nat)
    requires offers == [] || q == 0
    ensures Sweep(offers, q) == []
  {
  }

  /** A sweep of all of one offer and more goes on in the rest. */
  lemma SweepGoesOnAfter(a: Offer, b: seq<Offer>, q: nat, rest: nat)
    requires q >= a.quantity > 0
    ensures Sweep([a] + b, a.quantity + rest) == Sweep([a], q) + Sweep(b, rest)
  {
    hide Sweep;
    SweepFirst([a] + b, a.quantity + rest);
    assert ([a] + b)[1..] == b && [a][1..] == [];
    SweepFirst([a], q);
    if rest == 0 {
      SweepNothing(b, rest);
    }
    if q > a.quantity {
      SweepNothing([], q - a.quantity);
    }
  }

  /** A sweep of all of the first part and more goes on in the second. */
  lemma {:induction false} SweepGoesOn(a: seq<Offer>, b: seq<Offer>, q: nat, rest: nat)
    requires a != [] ==> a[|a| - 1].quantity > 0
    requires q >= OfferSum(a)
    ensures Sweep(a + b, OfferSum(a) + rest) == Sweep(a, q) + Sweep(b, rest)
  {
    hide Sweep;
    if a == [] {
      assert a + b == b;
      SweepNothing(a, q);
    } else if |a| == 1 {
      assert a == [a[0]] && a[1..] == [];
      SweepGoesOnAfter(a[0], b, q, rest);
    } else {
      LastIsCounted(a[1..]);
      assert OfferSum(a) == a[0].quantity + OfferSum(a[1..]);
      hide OfferSum;
      SweepFirst(a + b, OfferSum(a) + rest);
      assert (a + b)[1..] == a[1..] + b;
      SweepFirst(a, q);
      SweepGoesOn(a[1..], b, q - a[0].quantity, rest);
    }
  }

  lemma {:induction false} LastIsCounted(a: seq<Offer>)
    requires a != []
    ensures OfferSum(a) >= a[|a| - 1].quantity
  {
    if |a| > 1 {
      LastIsCounted(a[1..]);
    }
  }

  ghost predicate AllTidy(levels: Levels) {
    forall p | p in levels :: Tidy(levels[p].openOrders)
  }

  lemma LevelSweepStays(price: Index, orders: seq<Order>, b: seq<Offer>, q: nat)
    requires 0 < q <= Total(orders)
    ensures Sweep(OffersAt(price, orders) + b, q) == AtPrice(price, Fills(orders, q))
  {
    OfferSumIsTotal(price, orders);
    SweepOfLevel(price, orders, q);
    SweepStaysInFront(Offers(price, orders), b, q);
  }

  lemma LevelSweepGoesOn(price: Index, orders: seq<Order>, b: seq<Offer>, q: nat, rest: nat)
    requires Tidy(orders) && q > Total(orders)
    ensures Sweep(OffersAt(price, orders) + b, Total(orders) + rest)
         == (if Total(orders) == 0 then [] else AtPrice(price, Fills(orders, q))) + Sweep(b, rest)
  {
    if Total(orders) == 0 {
      assert OffersAt(price, orders) + b == b;
    } else {
      OfferSumIsTotal(price, orders);
      SweepOfLevel(price, orders, q);
      if |orders| == 1 {
        assert orders[1..] == [];
      }
      SweepGoesOn(Offers(price, orders), b, q, rest);
    }
  }

  /** The fills the book leg reports, against the total of the level. */
  lemma BookFillsOfLevel(book: Book, price: Index, quantity: nat)
    requires price in book.levels
    ensures var orders := book.levels[price].openOrders;
      BookFills(book, price, quantity) == if Total(orders) == 0 || quantity == 0 then [] else Fills(orders, quantity)
  {
    FillConserves(book.levels[price].openOrders, quantity);
  }

  /** From `before` to `after` the trades grew by a sweep of the queue. */
  ghost predicate SweptBy(before: seq<Trade>, after: seq<Trade>, queue: seq<Offer>) {
    && TradeSum(after) >= TradeSum(before)
    && after == before + Sweep(queue, TradeSum(after) - TradeSum(before))
  }

  lemma NothingSwept(trades: seq<Trade>, queue: seq<Offer>)
    ensures SweptBy(trades, trades, queue)
  {
  }

  /** The trades of a match are a sweep of the opposing queue: best price first, oldest order first, none skipped. */
  lemma {:induction false} MatchSweepsQueue(isBid: bool, c: Config, desk: Desk, remain: nat)
    requires AllTidy(desk.book.levels)
    ensures MatchFrom(isBid, c, desk, remain).Ok? ==>
      SweptBy(desk.trades, MatchFrom(isBid, c, desk, remain).value.trades, Queue(desk.book.levels, isBid))
    decreases |desk.book.levels|, remain
  {
    hide MaxSwap, PoolLeg, Turn, SweptBy, Queue, AllTidy;
    NothingSwept(desk.trades, Queue(desk.book.levels, isBid));
    if remain > 0 && MatchFrom(isBid, c, desk, remain).Ok? {
      var best := Best(desk.book.levels, isBid);
      if best.None? {
        PoolLegKeepsBook(isBid, c, desk, remain);
      } else {
        var swap := MaxSwap(isBid, best.value, c.decimals, c.terms.fee, desk.pool.base, desk.pool.quote, remain).value;
        if remain <= swap {
          PoolLegKeepsBook(isBid, c, desk, remain);
        } else {
          SweepTurn(isBid, c, desk, best.value, swap, remain);
        }
      }
    }
  }

  lemma SweepTurn(isBid: bool, c: Config, desk: Desk, target: Index, swap: nat, remain: nat)
    requires AllTidy(desk.book.levels) && swap < remain && Best(desk.book.levels, isBid) == Some(target)
    requires Turn(isBid, c, desk, target, swap, remain).Ok?
    requires var (next, left) := Turn(isBid, c, desk, target, swap, remain).value;
      MatchFrom(isBid, c, next, left).Ok?
    ensures var (next, left) := Turn(isBid, c, desk, target, swap, remain).value;
      var after := MatchFrom(isBid, c, next, left).value;
      SweptBy(desk.trades, after.trades, Queue(desk.book.levels, isBid))
    decreases |desk.book.levels|, remain, 0
  {
    hide Turn, MatchFrom, Queue, Sweep, TradeSum, Total, Fills, AtPrice, OffersAt;
    var (next, left) := Turn(isBid, c, desk, target, swap, remain).value;
    var q := remain - swap;
    var orders := desk.book.levels[target].openOrders;
    TurnTrades(isBid, c, desk, target, swap, remain);
    TurnShrinks(isBid, c, desk, target, swap, remain);
    QueueStartsAtBest(desk.book.levels, isBid, target);
    var queue := Queue(desk.book.levels - {target}, isBid);
    if left == 0 {
      MatchOfNothing(isBid, c, next);
      LevelSweepStays(target, orders, queue, q);
    } else {
      MatchSweepsQueue(isBid, c, next, left);
      var rest := TradeSum(MatchFrom(isBid, c, next, left).value.trades) - TradeSum(next.trades);
      LevelSweepGoesOn(target, orders, queue, q, rest);
    }
  }

  /** The trades and the remainder of one turn. */
  lemma TurnTrades(isBid: bool, c: Config, desk: Desk, target: Index, swap: nat, remain: nat)
    requires swap < remain && target in desk.book.levels && Turn(isBid, c, desk, target, swap, remain).Ok?
    ensures var (next, left) := Turn(isBid, c, desk, target, swap, remain).value;
      var q, orders := remain - swap, desk.book.levels[target].openOrders;
      && next.trades == desk.trades + (if Total(orders) == 0 then [] else AtPrice(target, Fills(orders, q)))
      && left == (if q <= Total(orders) then 0 else q - Total(orders))
      && TradeSum(next.trades) == TradeSum(desk.trades) + (q - left)
  {
    hide PoolLeg, BookLeg, BookFilled, Fills, Total, AtPrice, TradeSum;
    if swap > 0 {
      PoolLegKeepsBook(isBid, c, desk, swap);
    }
    var swapped := if swap == 0 then desk else PoolLeg(isBid, c, desk, swap).value;
    BookLegTrades(swapped, target, remain - swap);
  }

  lemma BookLegTrades(desk: Desk, price: Index, q: nat)
    requires price in desk.book.levels && q > 0
    ensures var orders := desk.book.levels[price].openOrders;
      && BookLeg(desk, price, q).trades
         == desk.trades + (if Total(orders) == 0 then [] else AtPrice(price, Fills(orders, q)))
      && BookFilled(desk.book, price, q) == (if q <= Total(orders) then q else Total(orders))
      && TradeSum(BookLeg(desk, price, q).trades) == TradeSum(desk.trades) + BookFilled(desk.book, price, q)
  {
    hide Fills, Rest, Total, TradeSum, SumFills;
    var fills := BookFills(desk.book, price, q);
    BookFillsOfLevel(desk.book, price, q);
    BookLegUsesUpLevel(desk.book, price, q);
    AtPriceSum(price, fills);
    TradeSumAppend(desk.trades, AtPrice(price, fills));
  }

  lemma MatchOfNothing(isBid: bool, c: Config, desk: Desk)
    ensures MatchFrom(isBid, c, desk, 0) == Ok(desk)
  {
  }

  lemma QueueStartsAtBest(levels: Levels, asks: bool, p: Index)
    requires Best(levels, asks) == Some(p)
    ensures Queue(levels, asks) == OffersAt(p, levels[p].openOrders) + Queue(levels - {p}, asks)
  {
  }

  /** `a` comes strictly before `b` in price-time order. */
  ghost predicate Before(a: Offer, b: Offer, asks: bool) {
    (if asks then a.price < b.price else a.price > b.price) || (a.price == b.price && a.id < b.id)
  }

  ghost predicate AllAscending(levels: Levels) {
    forall p | p in levels :: Ascending(levels[p].openOrders)
  }

  /** `o` is a resting order of the side, at a level that has something to give. */
  ghost predicate Rests(o: Offer, levels: Levels) {
    && o.price in levels && Total(levels[o.price].openOrders) > 0
    && Order(o.id, o.owner, o.quantity) in levels[o.price].openOrders
  }

  ghost predicate InOrder(queue: seq<Offer>, asks: bool) {
    forall i, j | 0 <= i < j < |queue| :: Before(queue[i], queue[j], asks)
  }

  lemma InOrderJoins(a: seq<Offer>, b: seq<Offer>, asks: bool)
    requires InOrder(a, asks) && InOrder(b, asks)
    requires forall x, y | x in a && y in b :: Before(x, y, asks)
    ensures InOrder(a + b, asks)
  {
    hide Before;
    forall i, j | 0 <= i < j < |a + b| ensures Before((a + b)[i], (a + b)[j], asks) {
      if i < |a| <= j {
        assert a[i] in a && b[j - |a|] in b;
      }
    }
  }

  lemma OffersInOrder(p: Index, orders: seq<Order>, asks: bool)
    requires Ascending(orders)
    ensures InOrder(OffersAt(p, orders), asks)
  {
    hide Total;
  }

  /** An offer of a level is one of its orders, when the level has something to give. */
  lemma OffersAreOrders(p: Index, orders: seq<Order>, o: Offer)
    ensures o in OffersAt(p, orders)
       <==> o.price == p && Total(orders) > 0 && Order(o.id, o.owner, o.quantity) in orders
  {
    hide Total;
    if o.price == p && Total(orders) > 0 && Order(o.id, o.owner, o.quantity) in orders {
      var i :| 0 <= i < |orders| && orders[i] == Order(o.id, o.owner, o.quantity);
      assert Offers(p, orders)[i] == o;
    }
  }

  lemma {:induction false} QueueHolds(levels: Levels, asks: bool, o: Offer)
    ensures o in Queue(levels, asks) <==> Rests(o, levels)
    decreases |levels|
  {
    hide OffersAt, Total;
    var best := Best(levels, asks);
    if best.Some? {
      var p, orders := best.value, levels[best.value].openOrders;
      WithoutIsSmaller(Book(levels, 0), p);
      QueueStartsAtBest(levels, asks, p);
      hide Queue;
      OffersAreOrders(p, orders, o);
      QueueHolds(levels - {p}, asks, o);
    }
  }

  lemma {:induction false} QueueSorted(levels: Levels, asks: bool)
    requires AllAscending(levels)
    ensures InOrder(Queue(levels, asks), asks)
    decreases |levels|
  {
    hide OffersAt, Total, InOrder;
    var best := Best(levels, asks);
    if best.None? {
      NothingInOrder(asks);
    } else {
      var p, orders := best.value, levels[best.value].openOrders;
      WithoutIsSmaller(Book(levels, 0), p);
      QueueStartsAtBest(levels, asks, p);
      QueueSorted(levels - {p}, asks);
      OffersInOrder(p, orders, asks);
      hide Queue;
      forall x, y | x in OffersAt(p, orders) && y in Queue(levels - {p}, asks) ensures Before(x, y, asks) {
        OffersAreOrders(p, orders, x);
        QueueHolds(levels - {p}, asks, y);
      }
      InOrderJoins(OffersAt(p, orders), Queue(levels - {p}, asks), asks);
    }
  }

  lemma NothingInOrder(asks: bool)
    ensures InOrder([], asks)
  {
  }

  /** The queue holds exactly the resting orders of levels with something to give, in strict price-time order. */
  lemma QueueInOrder(levels: Levels, asks: bool)
    requires AllAscending(levels)
    ensures forall o :: o in Queue(levels, asks) <==> Rests(o, levels)
    ensures InOrder(Queue(levels, asks), asks)
  {
    QueueSorted(levels, asks);
    forall o ensures o in Queue(levels, asks) <==> Rests(o, levels) {
      QueueHolds(levels, asks, o);
    }
    hide Queue, Rests, InOrder;
  }

  /** A sweep serves its queue in order; every trade but the last takes its offer whole. */
  lemma {:induction false} SweepServesInOrder(offers: seq<Offer>, q: nat)
    ensures var trades := Sweep(offers, q);
      && |trades| <= |offers|
      && (forall i | 0 <= i < |trades| ::
          && trades[i].owner == offers[i].owner && trades[i].price == offers[i].price
          && trades[i].quantity <= offers[i].quantity)
      && (forall i | 0 <= i < |trades| - 1 :: trades[i].quantity == offers[i].quantity)
  {
    if offers != [] && q > 0 && offers[0].quantity < q {
      SweepServesInOrder(offers[1..], q - offers[0].quantity);
    }
  }

  /**
    Trades in price-time order: the j-th goes to the j-th order of the queue, and every order that comes before
    that one by price or age was traded earlier, and in full.
   */
  ghost predicate ServedInOrder(trades: seq<Trade>, levels: Levels, asks: bool) {
    var queue := Queue(levels, asks);
    && |trades| <= |queue|
    && (forall i | 0 <= i < |trades| ::
        && trades[i].owner == queue[i].owner && trades[i].price == queue[i].price
        && trades[i].quantity <= queue[i].quantity)
    && (forall j: nat, o | j < |trades| && Rests(o, levels) && Before(o, queue[j], asks) ::
        exists i: nat :: i < j && queue[i] == o && trades[i] == Trade(o.owner, o.price, o.quantity))
  }

  /**
    Price-time priority over a whole match: an order is traded only after every resting order with a better
    price, or with the same price and an older id, has been taken whole.
   */
  lemma PriceTimePriority(isBid: bool, c: Config, desk: Desk, quantity: nat)
    requires desk.trades == [] && AllTidy(desk.book.levels) && AllAscending(desk.book.levels)
    ensures MatchFrom(isBid, c, desk, quantity).Ok? ==>
      ServedInOrder(MatchFrom(isBid, c, desk, quantity).value.trades, desk.book.levels, isBid)
  {
    hide MatchFrom, Queue, Sweep, ServedInOrder, AllTidy, AllAscending;
    if MatchFrom(isBid, c, desk, quantity).Ok? {
      var queue, trades := Queue(desk.book.levels, isBid), MatchFrom(isBid, c, desk, quantity).value.trades;
      MatchSweepsQueue(isBid, c, desk, quantity);
      assert TradeSum([]) == 0 && [] + Sweep(queue, TradeSum(trades)) == Sweep(queue, TradeSum(trades));
      SweepIsServedInOrder(desk.book.levels, isBid, TradeSum(trades));
    }
  }

  lemma SweepIsServedInOrder(levels: Levels, asks: bool, q: nat)
    requires AllAscending(levels)
    ensures ServedInOrder(Sweep(Queue(levels, asks), q), levels, asks)
  {
    hide Queue, Sweep, Rests, AllAscending, Before, InOrder;
    var queue := Queue(levels, asks);
    QueueSorted(levels, asks);
    SweepServesInOrder(queue, q);
    forall j: nat, o | j < |Sweep(queue, q)| && Rests(o, levels) && Before(o, queue[j], asks)
      ensures exists i: nat :: i < j && queue[i] == o && Sweep(queue, q)[i] == Trade(o.owner, o.price, o.quantity)
    {
      QueueHolds(levels, asks, o);
      ServedBefore(queue, q, asks, j, o);
    }
  }

  lemma ServedBefore(queue: seq<Offer>, q: nat, asks: bool, j: nat, o: Offer)
    requires InOrder(queue, asks)
    requires j < |Sweep(queue, q)| && j < |queue| && o in queue && Before(o, queue[j], asks)
    ensures exists i: nat :: i < j && queue[i] == o && Sweep(queue, q)[i] == Trade(o.owner, o.price, o.quantity)
  {
    SweepServesInOrder(queue, q);
    var i :| 0 <= i < |queue| && queue[i] == o;
    hide Sweep;
    assert i < j;
  }

  // ---------- the pool price stays between the books ----------

  ghost predicate NoneBelow(price: nat, levels: Levels) {
    forall p | p in levels :: price <= p
  }

  lemma BidLegPrice(c: Config, desk: Desk, quantity: nat)
    requires PoolLeg(true, c, desk, quantity).Ok?
    ensures var pool := PoolLeg(true, c, desk, quantity).value.pool;
      && quantity < desk.pool.base && pool.base > 0 && desk.pool.quote > 0 && pool.quote > 0
      && PriceOf(c.decimals, pool.base, pool.quote)
         == BidPrice(c.decimals, c.terms.fee, desk.pool.base, desk.pool.quote, quantity)
  {
  }

  /** A pool leg of a buyer does not lower the price, nor take it past the ask it was searched for. */
  lemma BidLegMovesUp(c: Config, desk: Desk, target: Index, swap: nat, remain: nat)
    requires swap > 0 && PoolLeg(true, c, desk, swap).Ok?
    ensures var pool := PoolLeg(true, c, desk, swap).value.pool;
      && pool.base > 0 && pool.quote > 0 && desk.pool.base > 0 && desk.pool.quote > 0
      && PriceOf(c.decimals, pool.base, pool.quote) >= PriceOf(c.decimals, desk.pool.base, desk.pool.quote)
      && (MaxSwap(true, target, c.decimals, c.terms.fee, desk.pool.base, desk.pool.quote, remain) == Ok(swap) ==>
          swap <= remain && PriceOf(c.decimals, pool.base, pool.quote) <= target)
  {
    BidLegPrice(c, desk, swap);
    BidPriceGrows(c.decimals, c.terms.fee, desk.pool.base, desk.pool.quote, swap, swap);
    hide PriceOf, BidPrice, MaxSwap, PoolLeg;
    if MaxSwap(true, target, c.decimals, c.terms.fee, desk.pool.base, desk.pool.quote, remain) == Ok(swap) {
      BidLegStaysBelowTarget(target, c.decimals, c.terms.fee, desk.pool.base, desk.pool.quote, remain);
    }
  }

  lemma BidSearchFits(c: Config, desk: Desk, target: Index, remain: nat)
    ensures var swap := MaxSwap(true, target, c.decimals, c.terms.fee, desk.pool.base, desk.pool.quote, remain);
      swap.Ok? ==> swap.value <= remain
  {
    hide BidPrice;
    if MaxSwap(true, target, c.decimals, c.terms.fee, desk.pool.base, desk.pool.quote, remain).Ok? {
      BidLegStaysBelowTarget(target, c.decimals, c.terms.fee, desk.pool.base, desk.pool.quote, remain);
    }
    hide MaxSwap;
  }

  /**
    A bid that matches never leaves the pool price above the best ask, and never lowers it, so it stays above
    the best bid: the executed pool leg moves the very amounts the search priced.
   */
  lemma {:induction false} BidMatchKeepsPriceInside(c: Config, desk: Desk, remain: nat)
    requires desk.pool.base > 0 && desk.pool.quote > 0
    requires NoneBelow(PriceOf(c.decimals, desk.pool.base, desk.pool.quote), desk.book.levels)
    ensures MatchFrom(true, c, desk, remain).Ok? ==>
      var after := MatchFrom(true, c, desk, remain).value;
      && after.pool.base > 0 && after.pool.quote > 0
      && NoneBelow(PriceOf(c.decimals, after.pool.base, after.pool.quote), after.book.levels)
      && PriceOf(c.decimals, after.pool.base, after.pool.quote) >= PriceOf(c.decimals, desk.pool.base, desk.pool.quote)
    decreases |desk.book.levels|, remain
  {
    hide PriceOf, MaxSwap, PoolLeg, FillIn;
    if remain > 0 && MatchFrom(true, c, desk, remain).Ok? {
      var best := Best(desk.book.levels, true);
      if best.None? {
        BidLegMovesUp(c, desk, 0, remain, remain);
        PoolLegKeepsBook(true, c, desk, remain);
      } else {
        var target := best.value;
        var swap := MaxSwap(true, target, c.decimals, c.terms.fee, desk.pool.base, desk.pool.quote, remain).value;
        BidSearchFits(c, desk, target, remain);
        if swap > 0 {
          BidLegMovesUp(c, desk, target, swap, remain);
          PoolLegKeepsBook(true, c, desk, swap);
        }
        if swap < remain {
          var (next, left) := Turn(true, c, desk, target, swap, remain).value;
          TurnShrinks(true, c, desk, target, swap, remain);
          FillKeepsPrices(desk.book, target, remain - swap);
          BidMatchKeepsPriceInside(c, next, left);
        }
      }
    }
  }

  lemma FillKeepsPrices(book: Book, price: Index, quantity: nat)
    ensures FillIn(book, price, quantity).levels.Keys <= book.levels.Keys
  {
  }

  lemma AskLegPrice(c: Config, desk: Desk, quantity: nat)
    requires PoolLeg(false, c, desk, quantity).Ok?
    ensures var pool := PoolLeg(false, c, desk, quantity).value.pool;
      && desk.pool.base > 0 && desk.pool.quote > 0 && pool.base > 0 && pool.quote > 0
      && PriceOf(c.decimals, pool.base, pool.quote)
         == AskPrice(c.decimals, c.terms.fee, desk.pool.base, desk.pool.quote, quantity)
  {
    OutBelowReserve(quantity, desk.pool.base, desk.pool.quote, c.terms.fee);
    hide OutOf, PriceOf, PaySwap;
  }

  /** Selling to the pool does not raise its price. */
  lemma AskLegLowersPrice(c: Config, desk: Desk, quantity: nat)
    requires PoolLeg(false, c, desk, quantity).Ok?
    ensures var pool := PoolLeg(false, c, desk, quantity).value.pool;
      && desk.pool.base > 0 && desk.pool.quote > 0 && pool.base > 0 && pool.quote > 0
      && PriceOf(c.decimals, pool.base, pool.quote) <= PriceOf(c.decimals, desk.pool.base, desk.pool.quote)
  {
    AskLegPrice(c, desk, quantity);
    AskPriceFalls(c.decimals, c.terms.fee, desk.pool.base, desk.pool.quote, 0, quantity);
    SaleOfNothing(c.decimals, c.terms.fee, desk.pool.base, desk.pool.quote);
    hide PoolLeg, PriceOf, AskPrice;
  }

  lemma SaleOfNothing(d: Decimals, fee: Fee, base: nat, quote: nat)
    requires base > 0 && quote > 0
    ensures AskPrice(d, fee, base, quote, 0) == PriceOf(d, base, quote)
  {
    BuysAtLeast(0, 1, base, quote, fee);
    hide PriceOf;
  }

  /** A selling match, with all its legs, never raises the pool price. */
  lemma AskMatchLowersPrice(c: Config, desk: Desk, remain: nat)
    requires desk.pool.base > 0 && desk.pool.quote > 0
    ensures MatchFrom(false, c, desk, remain).Ok? ==>
      var pool := MatchFrom(false, c, desk, remain).value.pool;
      && pool.base > 0 && pool.quote > 0
      && PriceOf(c.decimals, pool.base, pool.quote) <= PriceOf(c.decimals, desk.pool.base, desk.pool.quote)
  {
    hide PoolLeg, PriceOf, MatchFrom;
    var kept := (d: Desk) =>
      && d.pool.base > 0 && d.pool.quote > 0
      && PriceOf(c.decimals, d.pool.base, d.pool.quote) <= PriceOf(c.decimals, desk.pool.base, desk.pool.quote);
    forall d: Desk, q: nat | kept(d) && PoolLeg(false, c, d, q).Ok? ensures kept(PoolLeg(false, c, d, q).value) {
      AskLegLowersPrice(c, d, q);
    }
    MatchKeeps(false, c, desk, remain, kept);
  }

  // ---------- matching and the pool's backing ----------

  lemma PoolLegRaisesProduct(isBid: bool, c: Config, desk: Desk, quantity: nat)
    requires PoolLeg(isBid, c, desk, quantity).Ok?
    ensures var pool := PoolLeg(isBid, c, desk, quantity).value.pool;
      pool.base * pool.quote >= desk.pool.base * desk.pool.quote && pool.supply == desk.pool.supply
  {
    if isBid {
      PurchaseRaisesProduct(c.terms, desk.pool, Quoted, quantity);
    } else {
      SaleRaisesProduct(c.terms, desk.pool, Base, quantity);
    }
  }

  /** No match lowers the product of the reserves or touches the shares. */
  lemma MatchRaisesProduct(isBid: bool, c: Config, desk: Desk, remain: nat)
    ensures MatchFrom(isBid, c, desk, remain).Ok? ==>
      var pool := MatchFrom(isBid, c, desk, remain).value.pool;
      pool.base * pool.quote >= desk.pool.base * desk.pool.quote && pool.supply == desk.pool.supply
  {
    hide PoolLeg, MatchFrom;
    var kept := (d: Desk) =>
      d.pool.base * d.pool.quote >= desk.pool.base * desk.pool.quote && d.pool.supply == desk.pool.supply;
    forall d: Desk, q: nat | kept(d) && PoolLeg(isBid, c, d, q).Ok? ensures kept(PoolLeg(isBid, c, d, q).value) {
      PoolLegRaisesProduct(isBid, c, d, q);
    }
    MatchKeeps(isBid, c, desk, remain, kept);
  }
}

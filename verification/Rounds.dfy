/**
  How a match divides an order between the pool and the book.

  A match leaves two lists: its pool legs and its trades. The laws here tie them to each other, without speaking of the
  rounds in between: every leg is what the search answers at the best price that was not yet used up, every price is
  traded at only after the search was answered there, and the levels shrink by exactly what was traded at them.
 */
module Rounds {
  import opened Amm
  import opened Bits
  import opened Legs
  import opened Liquidity
  import opened Matching
  import opened OrderBook
  import opened SwapSearch
  import opened Ticks
  import opened Wrappers

  // ---------- what is traded at a price ----------

  ghost function TradedAt(trades: seq<Trade>, p: Index): nat {
    if trades == [] then 0
    else (if trades[0].price == p then trades[0].quantity else 0) + TradedAt(trades[1..], p)
  }

  ghost predicate Better(p: Index, q: Index, asks: bool) {
    if asks then p < q else p > q
  }

  /** A price that no other of the side is better than. */
  ghost predicate IsBest(levels: Levels, target: Index, asks: bool) {
    target in levels && forall p | p in levels && p != target :: Better(target, p, asks)
  }

  /** What is traded at prices better than `p`. */
  ghost function TradedBetter(trades: seq<Trade>, p: Index, asks: bool): nat {
    if trades == [] then 0
    else (if Better(trades[0].price, p, asks) then trades[0].quantity else 0) + TradedBetter(trades[1..], p, asks)
  }

  lemma {:induction false} TradedAppend(s: seq<Trade>, t: seq<Trade>, p: Index, asks: bool)
    ensures TradedAt(s + t, p) == TradedAt(s, p) + TradedAt(t, p)
    ensures TradedBetter(s + t, p, asks) == TradedBetter(s, p, asks) + TradedBetter(t, p, asks)
  {
    if s == [] {
      assert s + t == t;
    } else {
      assert (s + t)[1..] == s[1..] + t;
      TradedAppend(s[1..], t, p, asks);
    }
  }

  /** Trades of one level. */
  lemma {:induction false} TradedOnLevel(price: Index, trades: seq<Trade>, p: Index, asks: bool)
    requires forall i | 0 <= i < |trades| :: trades[i].price == price
    ensures TradedAt(trades, p) == if p == price then TradeSum(trades) else 0
    ensures TradedBetter(trades, p, asks) == if Better(price, p, asks) then TradeSum(trades) else 0
  {
    if trades != [] {
      TradedOnLevel(price, trades[1..], p, asks);
    }
  }

  lemma {:induction false} TradedOnlyIn(trades: seq<Trade>, p: Index)
    requires forall i | 0 <= i < |trades| :: trades[i].price != p
    ensures TradedAt(trades, p) == 0
  {
    if trades != [] {
      TradedOnlyIn(trades[1..], p);
    }
  }

  // ---------- levels shrink by what is traded ----------

  ghost function LevelTotal(levels: Levels, p: Index): nat {
    if p in levels then Total(levels[p].openOrders) else 0
  }

  lemma BookLegTakesFromLevel(desk: Desk, price: Index, q: nat, p: Index)
    requires price in desk.book.levels && q > 0
    ensures var after := BookLeg(desk, price, q);
      && LevelTotal(desk.book.levels, p) + TradedAt(desk.trades, p)
         == LevelTotal(after.book.levels, p) + TradedAt(after.trades, p)
      && after.book.levels.Keys <= desk.book.levels.Keys
  {
    var orders := desk.book.levels[price].openOrders;
    BookLegTrades(desk, price, q);
    var trades := if Total(orders) == 0 then [] else AtPrice(price, Fills(orders, q));
    TradedAppend(desk.trades, trades, p, true);
    TradedOnLevel(price, trades, p, true);
    AtPriceSum(price, Fills(orders, q));
    FillConserves(orders, q);
    hide TradedAt, Fills, Rest, Total, AtPrice, TradeSum;
    assert Total([]) == 0 by { NothingTotal(); }
  }

  lemma NothingTotal()
    ensures Total([]) == 0
  {
  }

  /** At every price the level loses exactly what was traded there, and no level appears. */
  lemma MatchTakesFromLevels(isBid: bool, c: Config, desk: Desk, remain: nat, p: Index)
    ensures MatchFrom(isBid, c, desk, remain).Ok? ==>
      var after := MatchFrom(isBid, c, desk, remain).value;
      && LevelTotal(desk.book.levels, p) + TradedAt(desk.trades, p)
         == LevelTotal(after.book.levels, p) + TradedAt(after.trades, p)
      && after.book.levels.Keys <= desk.book.levels.Keys
  {
    hide PoolLeg, BookLeg, MatchFrom, LevelTotal, TradedAt;
    var kept := (d: Desk) =>
      && LevelTotal(desk.book.levels, p) + TradedAt(desk.trades, p)
         == LevelTotal(d.book.levels, p) + TradedAt(d.trades, p)
      && d.book.levels.Keys <= desk.book.levels.Keys;
    forall d: Desk, q: nat | kept(d) && PoolLeg(isBid, c, d, q).Ok? ensures kept(PoolLeg(isBid, c, d, q).value) {
      PoolLegKeepsBook(isBid, c, d, q);
    }
    forall d: Desk, price: Index, q: nat | kept(d) && price in d.book.levels && q > 0
      ensures kept(BookLeg(d, price, q))
    {
      BookLegTakesFromLevel(d, price, q, p);
    }
    MatchKeeps(isBid, c, desk, remain, kept);
  }

  /** Trades are made at prices of the book only. */
  ghost predicate PricesIn(trades: seq<Trade>, levels: Levels) {
    forall i | 0 <= i < |trades| :: trades[i].price in levels
  }

  lemma MatchTradesInBook(isBid: bool, c: Config, desk: Desk, remain: nat)
    requires PricesIn(desk.trades, desk.book.levels)
    ensures MatchFrom(isBid, c, desk, remain).Ok? ==>
      PricesIn(MatchFrom(isBid, c, desk, remain).value.trades, desk.book.levels)
  {
    hide PoolLeg, BookLeg, MatchFrom;
    var kept := (d: Desk) => PricesIn(d.trades, desk.book.levels) && d.book.levels.Keys <= desk.book.levels.Keys;
    forall d: Desk, q: nat | kept(d) && PoolLeg(isBid, c, d, q).Ok? ensures kept(PoolLeg(isBid, c, d, q).value) {
      PoolLegKeepsBook(isBid, c, d, q);
    }
    forall d: Desk, p: Index, q: nat | kept(d) && p in d.book.levels && q > 0 ensures kept(BookLeg(d, p, q)) {
      BookLegPrices(d, p, q);
      FillKeepsPrices(d.book, p, q);
    }
    MatchKeeps(isBid, c, desk, remain, kept);
  }

  lemma BookLegPrices(desk: Desk, p: Index, q: nat)
    ensures var after := BookLeg(desk, p, q);
      && after.book == FillIn(desk.book, p, q) && |after.trades| >= |desk.trades|
      && (forall i | 0 <= i < |desk.trades| :: after.trades[i] == desk.trades[i])
      && (forall i | |desk.trades| <= i < |after.trades| :: after.trades[i].price == p)
  {
    hide FillIn, BookFills;
  }

  // ---------- starting afresh ----------

  /** The same desk with nothing recorded yet. */
  ghost function Fresh(desk: Desk): Desk {
    desk.(swaps := [], trades := [])
  }

  /** `after` with what `desk` had recorded put in front. */
  ghost function Onto(desk: Desk, after: Desk): Desk {
    after.(swaps := desk.swaps + after.swaps, trades := desk.trades + after.trades)
  }

  lemma PoolLegShifts(isBid: bool, c: Config, desk: Desk, quantity: nat)
    ensures var a, b := PoolLeg(isBid, c, desk, quantity), PoolLeg(isBid, c, Fresh(desk), quantity);
      (a.Ok? <==> b.Ok?) && (a.Ok? ==> a.value == Onto(desk, b.value) && Fresh(a.value) == Fresh(b.value))
  {
    hide FillPool, PaySwap;
    if PoolLeg(isBid, c, desk, quantity).Ok? {
      var leg := FillPool(isBid, c, desk.pool, quantity).value.1;
      assert desk.swaps + ([] + [leg]) == desk.swaps + [leg] && desk.trades + [] == desk.trades;
    }
  }

  lemma TurnShifts(isBid: bool, c: Config, desk: Desk, target: Index, swap: nat, remain: nat)
    requires swap < remain
    ensures var a, b := Turn(isBid, c, desk, target, swap, remain), Turn(isBid, c, Fresh(desk), target, swap, remain);
      && (a.Ok? <==> b.Ok?)
      && (a.Ok? ==>
          a.value.1 == b.value.1 && a.value.0 == Onto(desk, b.value.0) && Fresh(a.value.0) == Fresh(b.value.0))
  {
    hide PoolLeg, FillIn, BookFills, BookFilled, AtPrice;
    if swap > 0 {
      PoolLegShifts(isBid, c, desk, swap);
      if PoolLeg(isBid, c, desk, swap).Ok? {
        PoolLegKeepsBook(isBid, c, desk, swap);
        PoolLegKeepsBook(isBid, c, Fresh(desk), swap);
      }
    }
    var trades := AtPrice(target, BookFills(desk.book, target, remain - swap));
    assert desk.trades + ([] + trades) == desk.trades + trades && desk.swaps + [] == desk.swaps;
  }

  /** What is recorded already has no influence on a match. */
  lemma {:induction false} MatchShifts(isBid: bool, c: Config, desk: Desk, remain: nat)
    ensures var a, b := MatchFrom(isBid, c, desk, remain), MatchFrom(isBid, c, Fresh(desk), remain);
      (a.Ok? <==> b.Ok?) && (a.Ok? ==> a.value == Onto(desk, b.value))
    decreases |desk.book.levels|, remain
  {
    hide MaxSwap, PoolLeg, Turn, Best;
    assert desk.swaps + [] == desk.swaps && desk.trades + [] == desk.trades;
    if remain > 0 {
      PoolLegShifts(isBid, c, desk, remain);
      var best := Best(desk.book.levels, isBid);
      if best.Some? {
        BestIsIn(desk.book.levels, isBid);
        var swap := MaxSwap(isBid, best.value, c.decimals, c.terms.fee, desk.pool.base, desk.pool.quote, remain);
        if swap.Ok? && swap.value < remain {
          TurnShifts(isBid, c, desk, best.value, swap.value, remain);
          var turn := Turn(isBid, c, desk, best.value, swap.value, remain);
          if turn.Ok? {
            var (after, left) := turn.value;
            var next := Turn(isBid, c, Fresh(desk), best.value, swap.value, remain).value.0;
            TurnShrinks(isBid, c, desk, best.value, swap.value, remain);
            TurnShrinks(isBid, c, Fresh(desk), best.value, swap.value, remain);
            MatchShifts(isBid, c, after, left);
            MatchShifts(isBid, c, next, left);
            if MatchFrom(isBid, c, after, left).Ok? {
              OntoTwice(desk, next, MatchFrom(isBid, c, Fresh(after), left).value);
            }
          }
        }
      }
    }
  }

  lemma BestIsIn(levels: Levels, asks: bool)
    ensures Best(levels, asks).None? ==> levels == map[]
    ensures Best(levels, asks).Some? ==> IsBest(levels, Best(levels, asks).value, asks)
  {
  }

  lemma OntoTwice(a: Desk, b: Desk, after: Desk)
    ensures Onto(a, Onto(b, after)) == Onto(Onto(a, b), after)
  {
    assert a.swaps + (b.swaps + after.swaps) == (a.swaps + b.swaps) + after.swaps;
    assert a.trades + (b.trades + after.trades) == (a.trades + b.trades) + after.trades;
  }

  // ---------- the laws ----------

  /** Every level better than `p` was traded to its end. */
  ghost predicate BetterUsedUp(levels: Levels, trades: seq<Trade>, p: Index, asks: bool) {
    forall q | q in levels && Better(q, p, asks) :: TradedAt(trades, q) == LevelTotal(levels, q)
  }

  ghost predicate AllUsedUp(levels: Levels, trades: seq<Trade>) {
    forall q | q in levels :: TradedAt(trades, q) == LevelTotal(levels, q)
  }

  /** What the search answers at price `p` before leg `i`, for `r` of the order. */
  ghost predicate Answers(isBid: bool, c: Config, pool: Pool, swaps: seq<Swap>, i: nat, p: Index, r: int, s: nat)
    requires i <= |swaps|
  {
    var base, quote := BaseBefore(isBid, pool, swaps, i), QuoteBefore(isBid, pool, swaps, i);
    base > 0 && quote > 0 && r >= 0 && MaxSwap(isBid, p, c.decimals, c.terms.fee, base, quote, r) == Ok(s)
  }

  /** What is left of the order before leg `i` when everything better than `p` has been traded. */
  ghost function Left(quantity: nat, swaps: seq<Swap>, trades: seq<Trade>, i: nat, p: Index, asks: bool): int
    requires i <= |swaps|
  {
    quantity - SwapSum(swaps[..i]) - TradedBetter(trades, p, asks)
  }

  /** Leg `i` is the search's answer at `p`, a price of the book with everything better used up. */
  ghost predicate LegAt(isBid: bool, c: Config, levels: Levels, pool: Pool, quantity: nat, swaps: seq<Swap>,
      trades: seq<Trade>, i: nat, p: Index)
    requires i < |swaps|
  {
    && p in levels && BetterUsedUp(levels, trades, p, isBid)
    && Answers(isBid, c, pool, swaps, i, p, Left(quantity, swaps, trades, i, p, isBid), swaps[i].base)
  }

  /** Leg `i` is the search's answer at such a price, or all the rest when the book is used up. */
  ghost predicate LegLaw(isBid: bool, c: Config, levels: Levels, pool: Pool, quantity: nat, swaps: seq<Swap>,
      trades: seq<Trade>, i: nat)
    requires i < |swaps|
  {
    || (AllUsedUp(levels, trades) && swaps[i].base == quantity - SwapSum(swaps[..i]) - TradeSum(trades))
    || (exists p :: LegAt(isBid, c, levels, pool, quantity, swaps, trades, i, p))
  }

  /** Before leg `i` the search was answered at `p` by less than was left, and that leg, if any, was made. */
  ghost predicate TradedAfter(isBid: bool, c: Config, levels: Levels, pool: Pool, quantity: nat, swaps: seq<Swap>,
      trades: seq<Trade>, p: Index, i: nat, s: nat)
    requires i <= |swaps|
  {
    var r := Left(quantity, swaps, trades, i, p, isBid);
    && Answers(isBid, c, pool, swaps, i, p, r, s) && s < r && (s > 0 ==> i < |swaps| && swaps[i].base == s)
    && TradedAt(trades, p) == if r - s <= LevelTotal(levels, p) then r - s else LevelTotal(levels, p)
  }

  /** At every price all that was left after the search's leg is traded, as far as the level goes. */
  ghost predicate TradeLaw(isBid: bool, c: Config, levels: Levels, pool: Pool, quantity: nat, swaps: seq<Swap>,
      trades: seq<Trade>, p: Index)
  {
    exists i: nat, s: nat :: i <= |swaps| && TradedAfter(isBid, c, levels, pool, quantity, swaps, trades, p, i, s)
  }

  /** Both laws of a whole match. */
  ghost predicate Follows(isBid: bool, c: Config, levels: Levels, pool: Pool, quantity: nat, swaps: seq<Swap>,
      trades: seq<Trade>)
  {
    && (forall i | 0 <= i < |swaps| :: LegLaw(isBid, c, levels, pool, quantity, swaps, trades, i))
    && (forall p | TradedAt(trades, p) > 0 :: TradeLaw(isBid, c, levels, pool, quantity, swaps, trades, p))
  }

  // ---------- from the rest of a match to all of it ----------

  /** One round: the legs `first` and the trades `now` at `target`, then the rest with `swaps` and `trades`. */
  ghost predicate RoundFirst(isBid: bool, levels: Levels, pool: Pool, quantity: nat, target: Index, first: seq<Swap>,
      now: seq<Trade>, pool': Pool, left: nat, swaps: seq<Swap>, trades: seq<Trade>)
  {
    && IsBest(levels, target, isBid)
    && (forall i | 0 <= i < |now| :: now[i].price == target) && TradeSum(now) == LevelTotal(levels, target)
    && left == quantity - SwapSum(first) - TradeSum(now)
    && pool'.base == BaseBefore(isBid, pool, first, |first|) && pool'.quote == QuoteBefore(isBid, pool, first, |first|)
    && PricesIn(trades, levels - {target})
  }

  lemma LaterSums(isBid: bool, pool: Pool, pool': Pool, first: seq<Swap>, swaps: seq<Swap>, i: nat)
    requires i <= |swaps|
    requires pool'.base == BaseBefore(isBid, pool, first, |first|)
    requires pool'.quote == QuoteBefore(isBid, pool, first, |first|)
    ensures var all := first + swaps;
      && BaseBefore(isBid, pool, all, |first| + i) == BaseBefore(isBid, pool', swaps, i)
      && QuoteBefore(isBid, pool, all, |first| + i) == QuoteBefore(isBid, pool', swaps, i)
      && SwapSum(all[..|first| + i]) == SwapSum(first) + SwapSum(swaps[..i])
      && (i < |swaps| ==> all[|first| + i] == swaps[i])
  {
    var all := first + swaps;
    assert all[..|first| + i] == first + swaps[..i] && first[..|first|] == first;
    SwapSumAppend(first, swaps[..i]);
    QuoteSumAppend(first, swaps[..i]);
  }

  lemma LaterTrades(isBid: bool, levels: Levels, pool: Pool, quantity: nat, target: Index, first: seq<Swap>,
      now: seq<Trade>, pool': Pool, left: nat, swaps: seq<Swap>, trades: seq<Trade>, p: Index)
    requires RoundFirst(isBid, levels, pool, quantity, target, first, now, pool', left, swaps, trades)
    ensures TradedAt(now + trades, p) == if p == target then TradeSum(now) else TradedAt(trades, p)
    ensures p in levels && p != target ==>
      TradedBetter(now + trades, p, isBid) == TradeSum(now) + TradedBetter(trades, p, isBid)
    ensures LevelTotal(levels - {target}, p) == if p == target then 0 else LevelTotal(levels, p)
  {
    TradedAppend(now, trades, p, isBid);
    TradedOnLevel(target, now, p, isBid);
    if p == target {
      TradedOnlyIn(trades, p);
    }
  }

  lemma LiftUsedUp(isBid: bool, levels: Levels, pool: Pool, quantity: nat, target: Index, first: seq<Swap>,
      now: seq<Trade>, pool': Pool, left: nat, swaps: seq<Swap>, trades: seq<Trade>, p: Index)
    requires RoundFirst(isBid, levels, pool, quantity, target, first, now, pool', left, swaps, trades)
    ensures AllUsedUp(levels - {target}, trades) ==> AllUsedUp(levels, now + trades)
    ensures BetterUsedUp(levels - {target}, trades, p, isBid) ==> BetterUsedUp(levels, now + trades, p, isBid)
  {
    hide TradedAt, LevelTotal;
    forall q ensures TradedAt(now + trades, q) == (if q == target then TradeSum(now) else TradedAt(trades, q))
      ensures LevelTotal(levels - {target}, q) == if q == target then 0 else LevelTotal(levels, q)
    {
      LaterTrades(isBid, levels, pool, quantity, target, first, now, pool', left, swaps, trades, q);
    }
  }

  lemma LiftAnswers(isBid: bool, c: Config, levels: Levels, pool: Pool, quantity: nat, target: Index, first: seq<Swap>,
      now: seq<Trade>, pool': Pool, left: nat, swaps: seq<Swap>, trades: seq<Trade>, i: nat, p: Index, s: nat)
    requires RoundFirst(isBid, levels, pool, quantity, target, first, now, pool', left, swaps, trades)
    requires i <= |swaps| && p in levels && p != target
    ensures var r := Left(left, swaps, trades, i, p, isBid);
      && Left(quantity, first + swaps, now + trades, |first| + i, p, isBid) == r
      && (Answers(isBid, c, pool', swaps, i, p, r, s) ==> Answers(isBid, c, pool, first + swaps, |first| + i, p, r, s))
  {
    LaterSums(isBid, pool, pool', first, swaps, i);
    LaterTrades(isBid, levels, pool, quantity, target, first, now, pool', left, swaps, trades, p);
    hide BaseBefore, QuoteBefore, MaxSwap, TradedBetter, SwapSum;
  }

  lemma LiftLeg(isBid: bool, c: Config, levels: Levels, pool: Pool, quantity: nat, target: Index, first: seq<Swap>,
      now: seq<Trade>, pool': Pool, left: nat, swaps: seq<Swap>, trades: seq<Trade>, i: nat)
    requires RoundFirst(isBid, levels, pool, quantity, target, first, now, pool', left, swaps, trades) && i < |swaps|
    requires LegLaw(isBid, c, levels - {target}, pool', left, swaps, trades, i)
    ensures LegLaw(isBid, c, levels, pool, quantity, first + swaps, now + trades, |first| + i)
  {
    LaterSums(isBid, pool, pool', first, swaps, i);
    TradeSumAppend(now, trades);
    LiftUsedUp(isBid, levels, pool, quantity, target, first, now, pool', left, swaps, trades, target);
    hide Answers, Left, BetterUsedUp, SwapSum, TradeSum;
    if !AllUsedUp(levels - {target}, trades) || swaps[i].base != left - SwapSum(swaps[..i]) - TradeSum(trades) {
      var p :| LegAt(isBid, c, levels - {target}, pool', left, swaps, trades, i, p);
      LiftUsedUp(isBid, levels, pool, quantity, target, first, now, pool', left, swaps, trades, p);
      LiftAnswers(isBid, c, levels, pool, quantity, target, first, now, pool', left, swaps, trades, i, p,
                  swaps[i].base);
      assert LegAt(isBid, c, levels, pool, quantity, first + swaps, now + trades, |first| + i, p);
    }
  }

  lemma LiftTrade(isBid: bool, c: Config, levels: Levels, pool: Pool, quantity: nat, target: Index, first: seq<Swap>,
      now: seq<Trade>, pool': Pool, left: nat, swaps: seq<Swap>, trades: seq<Trade>, p: Index)
    requires RoundFirst(isBid, levels, pool, quantity, target, first, now, pool', left, swaps, trades)
    requires p in levels && p != target && TradeLaw(isBid, c, levels - {target}, pool', left, swaps, trades, p)
    ensures TradeLaw(isBid, c, levels, pool, quantity, first + swaps, now + trades, p)
  {
    hide Answers, Left, LevelTotal, TradedAt;
    var i: nat, s: nat :| i <= |swaps| && TradedAfter(isBid, c, levels - {target}, pool', left, swaps, trades, p, i, s);
    LaterTrades(isBid, levels, pool, quantity, target, first, now, pool', left, swaps, trades, p);
    LiftAnswers(isBid, c, levels, pool, quantity, target, first, now, pool', left, swaps, trades, i, p, s);
    LaterSums(isBid, pool, pool', first, swaps, i);
    assert TradedAfter(isBid, c, levels, pool, quantity, first + swaps, now + trades, p, |first| + i, s);
  }

  // ---------- every match follows the laws ----------

  lemma SearchFits(isBid: bool, target: nat, d: Decimals, fee: Fee, base: nat, quote: nat, remain: nat)
    ensures var s := MaxSwap(isBid, target, d, fee, base, quote, remain);
      s.Ok? ==> s.value <= remain && base > 0 && quote > 0
  {
    hide SearchFrom;
    if MaxSwap(isBid, target, d, fee, base, quote, remain).Ok? {
      var s := MaxSwap(isBid, target, d, fee, base, quote, remain).value;
      SearchEndsOn(isBid, target, d, fee, base, quote, Search(0, remain, 0));
      if s > 0 {
        ReachesWithin(0, remain, Pow10(d.base), s);
      }
    }
  }

  lemma NoSums(p: Index, asks: bool)
    ensures SwapSum([]) == 0 && QuoteSum([]) == 0 && TradeSum([]) == 0
    ensures TradedAt([], p) == 0 && TradedBetter([], p, asks) == 0
  {
  }

  /** A single leg that takes all of the order. */
  lemma LastLeg(isBid: bool, c: Config, desk: Desk, remain: nat)
    requires desk.swaps == [] && desk.trades == [] && PoolLeg(isBid, c, desk, remain).Ok?
    requires var best := Best(desk.book.levels, isBid);
      best.Some? ==>
        MaxSwap(isBid, best.value, c.decimals, c.terms.fee, desk.pool.base, desk.pool.quote, remain) == Ok(remain)
    ensures var after := PoolLeg(isBid, c, desk, remain).value;
      Follows(isBid, c, desk.book.levels, desk.pool, remain, after.swaps, after.trades)
  {
    var best := Best(desk.book.levels, isBid);
    PoolLegKeepsBook(isBid, c, desk, remain);
    PoolLegTakesAll(isBid, c, desk, remain);
    BestIsIn(desk.book.levels, isBid);
    hide PoolLeg, MaxSwap, Best;
    if best.Some? {
      SearchFits(isBid, best.value, c.decimals, c.terms.fee, desk.pool.base, desk.pool.quote, remain);
    }
    SingleLeg(isBid, c, desk.book.levels, desk.pool, remain, best, PoolLeg(isBid, c, desk, remain).value.swaps);
  }

  lemma SingleLeg(isBid: bool, c: Config, levels: Levels, pool: Pool, quantity: nat, best: Option<Index>,
      swaps: seq<Swap>)
    requires |swaps| == 1 && swaps[0].base == quantity
    requires best.None? ==> levels == map[]
    requires best.Some? ==>
      && IsBest(levels, best.value, isBid) && pool.base > 0 && pool.quote > 0
      && MaxSwap(isBid, best.value, c.decimals, c.terms.fee, pool.base, pool.quote, quantity) == Ok(quantity)
    ensures Follows(isBid, c, levels, pool, quantity, swaps, [])
  {
    hide LegLaw, TradeLaw, TradedAt, MaxSwap;
    FirstLeg(isBid, c, levels, pool, quantity, best, swaps);
    forall p ensures TradedAt([], p) == 0 {
      NoSums(p, isBid);
    }
  }

  lemma FirstLeg(isBid: bool, c: Config, levels: Levels, pool: Pool, quantity: nat, best: Option<Index>,
      swaps: seq<Swap>)
    requires |swaps| == 1 && swaps[0].base == quantity
    requires best.None? ==> levels == map[]
    requires best.Some? ==>
      && IsBest(levels, best.value, isBid) && pool.base > 0 && pool.quote > 0
      && MaxSwap(isBid, best.value, c.decimals, c.terms.fee, pool.base, pool.quote, quantity) == Ok(quantity)
    ensures LegLaw(isBid, c, levels, pool, quantity, swaps, [], 0)
  {
    assert best.Some? ==> best.value in levels;
    hide MaxSwap, Answers, BetterUsedUp, Left, SwapSum, TradeSum, IsBest, TradedBetter;
    if best.Some? {
      NoSums(best.value, isBid);
      FirstAnswer(isBid, c, levels, pool, quantity, best.value, quantity, swaps, []);
      assert LegAt(isBid, c, levels, pool, quantity, swaps, [], 0, best.value);
    } else {
      NoSums(0, isBid);
      assert swaps[..0] == [] && AllUsedUp(levels, []);
    }
  }

  /** At the best price, nothing better is left and nothing was taken before the search. */
  lemma FirstAnswer(isBid: bool, c: Config, levels: Levels, pool: Pool, quantity: nat, target: Index, swap: nat,
      swaps: seq<Swap>, trades: seq<Trade>)
    requires IsBest(levels, target, isBid) && pool.base > 0 && pool.quote > 0
    requires MaxSwap(isBid, target, c.decimals, c.terms.fee, pool.base, pool.quote, quantity) == Ok(swap)
    requires TradedBetter(trades, target, isBid) == 0
    ensures BetterUsedUp(levels, trades, target, isBid)
    ensures Left(quantity, swaps, trades, 0, target, isBid) == quantity
    ensures Answers(isBid, c, pool, swaps, 0, target, quantity, swap)
  {
    NoSums(target, isBid);
    assert swaps[..0] == [];
    hide MaxSwap, SwapSum, QuoteSum, TradedAt, TradedBetter, LevelTotal;
  }

  lemma PoolLegTakesAll(isBid: bool, c: Config, desk: Desk, quantity: nat)
    requires PoolLeg(isBid, c, desk, quantity).Ok?
    ensures var after := PoolLeg(isBid, c, desk, quantity).value;
      |after.swaps| == |desk.swaps| + 1 && after.swaps[|desk.swaps|].base == quantity
  {
    hide SwapExactIn, SwapExactOut, PaySwap;
  }

  /** What one turn adds to a fresh desk. */
  lemma FreshTurn(isBid: bool, c: Config, desk: Desk, target: Index, swap: nat, remain: nat)
    requires desk.swaps == [] && desk.trades == [] && swap < remain && target in desk.book.levels
    requires Turn(isBid, c, desk, target, swap, remain).Ok?
    ensures var (next, left) := Turn(isBid, c, desk, target, swap, remain).value;
      && (if swap == 0 then next.swaps == [] else |next.swaps| == 1 && next.swaps[0].base == swap)
      && next.pool.base == BaseBefore(isBid, desk.pool, next.swaps, |next.swaps|)
      && next.pool.quote == QuoteBefore(isBid, desk.pool, next.swaps, |next.swaps|)
      && SwapSum(next.swaps) == swap
      && (forall i | 0 <= i < |next.trades| :: next.trades[i].price == target)
      && TradeSum(next.trades) == remain - swap - left
      && left == (if remain - swap <= LevelTotal(desk.book.levels, target) then 0
                  else remain - swap - LevelTotal(desk.book.levels, target))
  {
    NoSums(target, isBid);
    TurnTrades(isBid, c, desk, target, swap, remain);
    if swap > 0 {
      FreshLeg(isBid, c, desk, swap);
      PoolLegKeepsBook(isBid, c, desk, swap);
    } else {
      assert desk.swaps[..0] == [];
    }
    hide PoolLeg, BookFilled, FillIn, BookFills, Fills, AtPrice, SwapSum, QuoteSum, TradeSum;
  }

  lemma FreshLeg(isBid: bool, c: Config, desk: Desk, quantity: nat)
    requires desk.swaps == [] && PoolLeg(isBid, c, desk, quantity).Ok?
    ensures var after := PoolLeg(isBid, c, desk, quantity).value;
      && |after.swaps| == 1 && after.swaps[0].base == quantity && SwapSum(after.swaps) == quantity
      && after.pool.base == BaseBefore(isBid, desk.pool, after.swaps, 1)
      && after.pool.quote == QuoteBefore(isBid, desk.pool, after.swaps, 1)
  {
    PoolLegIsPriced(isBid, c, desk, quantity);
    PoolLegTakesAll(isBid, c, desk, quantity);
    hide PoolLeg, LegPriced;
    var swaps := PoolLeg(isBid, c, desk, quantity).value.swaps;
    assert swaps == [] + [swaps[0]] == swaps[..1];
    SumsPush([], swaps[0]);
    assert SwapSum([]) == 0 && QuoteSum([]) == 0;
  }

  /** The round itself follows the laws: its leg, if any, and its trades. */
  lemma ThisRound(isBid: bool, c: Config, levels: Levels, pool: Pool, quantity: nat, target: Index, swap: nat,
      swaps: seq<Swap>, trades: seq<Trade>)
    requires IsBest(levels, target, isBid)
    requires pool.base > 0 && pool.quote > 0 && swap < quantity
    requires MaxSwap(isBid, target, c.decimals, c.terms.fee, pool.base, pool.quote, quantity) == Ok(swap)
    requires swap > 0 ==> |swaps| > 0 && swaps[0].base == swap
    requires TradedBetter(trades, target, isBid) == 0
    requires TradedAt(trades, target)
      == if quantity - swap <= LevelTotal(levels, target) then quantity - swap else LevelTotal(levels, target)
    ensures swap > 0 ==> LegLaw(isBid, c, levels, pool, quantity, swaps, trades, 0)
    ensures TradeLaw(isBid, c, levels, pool, quantity, swaps, trades, target)
  {
    hide MaxSwap, Answers, BetterUsedUp, Left, TradedAt, TradedBetter, LevelTotal;
    FirstAnswer(isBid, c, levels, pool, quantity, target, swap, swaps, trades);
    assert target in levels;
    hide IsBest;
    assert swap > 0 ==> LegAt(isBid, c, levels, pool, quantity, swaps, trades, 0, target);
    assert TradedAfter(isBid, c, levels, pool, quantity, swaps, trades, target, 0, swap);
  }

  /** Every match follows both laws. */
  lemma {:induction false} MatchFollowsSearch(isBid: bool, c: Config, desk: Desk, remain: nat)
    requires desk.swaps == [] && desk.trades == []
    ensures MatchFrom(isBid, c, desk, remain).Ok? ==>
      var after := MatchFrom(isBid, c, desk, remain).value;
      Follows(isBid, c, desk.book.levels, desk.pool, remain, after.swaps, after.trades)
    decreases |desk.book.levels|, remain
  {
    hide MaxSwap, PoolLeg, Turn, Best, LegLaw, TradeLaw;
    if MatchFrom(isBid, c, desk, remain).Ok? {
      if remain == 0 {
        NothingFollows(isBid, c, desk.book.levels, desk.pool, 0);
      } else {
        var best := Best(desk.book.levels, isBid);
        if best.None? {
          LastLeg(isBid, c, desk, remain);
        } else {
          var d, fee := c.decimals, c.terms.fee;
          var swap := MaxSwap(isBid, best.value, d, fee, desk.pool.base, desk.pool.quote, remain).value;
          SearchFits(isBid, best.value, c.decimals, c.terms.fee, desk.pool.base, desk.pool.quote, remain);
          if remain <= swap {
            LastLeg(isBid, c, desk, remain);
          } else {
            BestIsIn(desk.book.levels, isBid);
            var (next, left) := Turn(isBid, c, desk, best.value, swap, remain).value;
            TurnShrinks(isBid, c, desk, best.value, swap, remain);
            MatchFollowsSearch(isBid, c, Fresh(next), left);
            TurnFollows(isBid, c, desk, best.value, swap, remain);
          }
        }
      }
    }
  }

  lemma NothingFollows(isBid: bool, c: Config, levels: Levels, pool: Pool, quantity: nat)
    ensures Follows(isBid, c, levels, pool, quantity, [], [])
  {
  }

  /** A round before a rest that follows the laws makes a match that follows them. */
  lemma TurnFollows(isBid: bool, c: Config, desk: Desk, target: Index, swap: nat, remain: nat)
    requires desk.swaps == [] && desk.trades == [] && swap < remain && Best(desk.book.levels, isBid) == Some(target)
    requires MaxSwap(isBid, target, c.decimals, c.terms.fee, desk.pool.base, desk.pool.quote, remain) == Ok(swap)
    requires Turn(isBid, c, desk, target, swap, remain).Ok?
    requires var (next, left) := Turn(isBid, c, desk, target, swap, remain).value;
      && MatchFrom(isBid, c, next, left).Ok?
      && (MatchFrom(isBid, c, Fresh(next), left).Ok? ==>
          var rest := MatchFrom(isBid, c, Fresh(next), left).value;
          Follows(isBid, c, next.book.levels, next.pool, left, rest.swaps, rest.trades))
    ensures var (next, left) := Turn(isBid, c, desk, target, swap, remain).value;
      var after := MatchFrom(isBid, c, next, left).value;
      Follows(isBid, c, desk.book.levels, desk.pool, remain, after.swaps, after.trades)
  {
    var levels := desk.book.levels;
    var (next, left) := Turn(isBid, c, desk, target, swap, remain).value;
    BestIsIn(levels, isBid);
    SearchFits(isBid, target, c.decimals, c.terms.fee, desk.pool.base, desk.pool.quote, remain);
    FreshTurn(isBid, c, desk, target, swap, remain);
    TurnShrinks(isBid, c, desk, target, swap, remain);
    MatchShifts(isBid, c, next, left);
    hide MatchFrom, MaxSwap, Turn, Best, LegLaw, TradeLaw, BaseBefore, QuoteBefore, TradedAt, TradedBetter, LevelTotal;
    hide SwapSum, TradeSum, FillIn;
    var rest := MatchFrom(isBid, c, Fresh(next), left).value;
    if left == 0 {
      MatchOfNothing(isBid, c, Fresh(next));
      assert next.swaps + [] == next.swaps && next.trades + [] == next.trades;
      OnlyRound(isBid, c, levels, desk.pool, remain, target, swap, next.swaps, next.trades);
    } else {
      MatchTradesInBook(isBid, c, Fresh(next), left);
      assert RoundFirst(isBid, levels, desk.pool, remain, target, next.swaps, next.trades, next.pool, left,
                        rest.swaps, rest.trades);
      RoundAndRest(isBid, c, levels, desk.pool, remain, target, swap, next.swaps, next.trades, next.pool, left,
                   rest.swaps, rest.trades);
    }
  }

  lemma OnlyRound(isBid: bool, c: Config, levels: Levels, pool: Pool, quantity: nat, target: Index, swap: nat,
      swaps: seq<Swap>, trades: seq<Trade>)
    requires IsBest(levels, target, isBid)
    requires pool.base > 0 && pool.quote > 0 && swap < quantity <= swap + LevelTotal(levels, target)
    requires MaxSwap(isBid, target, c.decimals, c.terms.fee, pool.base, pool.quote, quantity) == Ok(swap)
    requires if swap == 0 then swaps == [] else |swaps| == 1 && swaps[0].base == swap
    requires (forall i | 0 <= i < |trades| :: trades[i].price == target) && TradeSum(trades) == quantity - swap
    ensures Follows(isBid, c, levels, pool, quantity, swaps, trades)
  {
    hide MaxSwap, LegLaw, TradeLaw, TradedAt, TradedBetter, LevelTotal;
    forall p ensures TradedAt(trades, p) == if p == target then TradeSum(trades) else 0 {
      TradedOnLevel(target, trades, p, isBid);
    }
    TradedOnLevel(target, trades, target, isBid);
    ThisRound(isBid, c, levels, pool, quantity, target, swap, swaps, trades);
  }

  lemma RoundAndRest(isBid: bool, c: Config, levels: Levels, pool: Pool, quantity: nat, target: Index, swap: nat,
      first: seq<Swap>, now: seq<Trade>, pool': Pool, left: nat, swaps: seq<Swap>, trades: seq<Trade>)
    requires RoundFirst(isBid, levels, pool, quantity, target, first, now, pool', left, swaps, trades)
    requires pool.base > 0 && pool.quote > 0 && swap < quantity && left > 0 && SwapSum(first) == swap
    requires MaxSwap(isBid, target, c.decimals, c.terms.fee, pool.base, pool.quote, quantity) == Ok(swap)
    requires if swap == 0 then first == [] else |first| == 1 && first[0].base == swap
    requires Follows(isBid, c, levels - {target}, pool', left, swaps, trades)
    ensures Follows(isBid, c, levels, pool, quantity, first + swaps, now + trades)
  {
    var allSwaps, allTrades := first + swaps, now + trades;
    hide RoundFirst, MaxSwap, LegLaw, TradeLaw, TradedAt, SwapSum;
    RoundItself(isBid, c, levels, pool, quantity, target, swap, first, now, pool', left, swaps, trades);
    forall i | 0 <= i < |allSwaps| ensures LegLaw(isBid, c, levels, pool, quantity, allSwaps, allTrades, i) {
      if i >= |first| {
        LiftLeg(isBid, c, levels, pool, quantity, target, first, now, pool', left, swaps, trades, i - |first|);
        assert |first| + (i - |first|) == i;
      }
    }
    forall p | TradedAt(allTrades, p) > 0 ensures TradeLaw(isBid, c, levels, pool, quantity, allSwaps, allTrades, p) {
      if p != target {
        LiftTraded(isBid, c, levels, pool, quantity, target, first, now, pool', left, swaps, trades, p);
      }
    }
  }

  lemma RoundItself(isBid: bool, c: Config, levels: Levels, pool: Pool, quantity: nat, target: Index, swap: nat,
      first: seq<Swap>, now: seq<Trade>, pool': Pool, left: nat, swaps: seq<Swap>, trades: seq<Trade>)
    requires RoundFirst(isBid, levels, pool, quantity, target, first, now, pool', left, swaps, trades)
    requires pool.base > 0 && pool.quote > 0 && swap < quantity && left > 0 && SwapSum(first) == swap
    requires MaxSwap(isBid, target, c.decimals, c.terms.fee, pool.base, pool.quote, quantity) == Ok(swap)
    requires if swap == 0 then first == [] else |first| == 1 && first[0].base == swap
    ensures swap > 0 ==> LegLaw(isBid, c, levels, pool, quantity, first + swaps, now + trades, 0)
    ensures TradeLaw(isBid, c, levels, pool, quantity, first + swaps, now + trades, target)
  {
    hide MaxSwap, LegLaw, TradeLaw, TradedAt, TradedBetter, LevelTotal, SwapSum, TradeSum, BaseBefore, QuoteBefore;
    LaterTrades(isBid, levels, pool, quantity, target, first, now, pool', left, swaps, trades, target);
    NoneBetter(isBid, levels, target, now, trades);
    ThisRound(isBid, c, levels, pool, quantity, target, swap, first + swaps, now + trades);
  }

  lemma LiftTraded(isBid: bool, c: Config, levels: Levels, pool: Pool, quantity: nat, target: Index, first: seq<Swap>,
      now: seq<Trade>, pool': Pool, left: nat, swaps: seq<Swap>, trades: seq<Trade>, p: Index)
    requires RoundFirst(isBid, levels, pool, quantity, target, first, now, pool', left, swaps, trades)
    requires p != target && TradedAt(now + trades, p) > 0
    requires Follows(isBid, c, levels - {target}, pool', left, swaps, trades)
    ensures TradeLaw(isBid, c, levels, pool, quantity, first + swaps, now + trades, p)
  {
    hide LegLaw, TradeLaw, TradedAt, LevelTotal;
    LaterTrades(isBid, levels, pool, quantity, target, first, now, pool', left, swaps, trades, p);
    if p !in levels {
      TradedOnlyIn(trades, p);
      assert false;
    }
    LiftTrade(isBid, c, levels, pool, quantity, target, first, now, pool', left, swaps, trades, p);
  }

  lemma {:induction false} NoneBetter(isBid: bool, levels: Levels, target: Index, now: seq<Trade>, trades: seq<Trade>)
    requires IsBest(levels, target, isBid)
    requires (forall i | 0 <= i < |now| :: now[i].price == target) && PricesIn(trades, levels)
    ensures TradedBetter(now + trades, target, isBid) == 0
  {
    TradedAppend(now, trades, target, isBid);
    TradedOnLevel(target, now, target, isBid);
    NoneBetterIn(isBid, levels, target, trades);
  }

  lemma {:induction false} NoneBetterIn(isBid: bool, levels: Levels, target: Index, trades: seq<Trade>)
    requires IsBest(levels, target, isBid)
    requires PricesIn(trades, levels)
    ensures TradedBetter(trades, target, isBid) == 0
  {
    if trades != [] {
      assert trades[0].price in levels;
      NoneBetterIn(isBid, levels, target, trades[1..]);
    }
  }

  // ---------- the pool comes first ----------

  /** The pool price has come up to `p`, or buying any `x` from two base units up to `q` would take it past `p`. */
  ghost predicate PoolPassed(d: Decimals, fee: Fee, base: int, quote: int, p: nat, q: int) {
    && base > 0 && quote > 0
    && (PriceOf(d, base, quote) >= p
        || forall x: nat | 2 * Pow10(d.base) <= x <= q && x < base :: BidPrice(d, fee, base, quote, x) > p)
  }

  /** Buying in two steps takes the price at least as far. */
  lemma SplitPrice(d: Decimals, fee: Fee, base: nat, quote: nat, s: nat, x: nat)
    requires s + x < base
    ensures BidPrice(d, fee, base - s, quote + InFor(s, quote, base, fee), x) >= BidPrice(d, fee, base, quote, s + x)
  {
    SplittingCostsMore(s, x, quote, base, fee);
    hide InFor, PriceOf;
    var quote' := quote + InFor(s, quote, base, fee);
    PriceGrows(d, base - (s + x), quote + InFor(s + x, quote, base, fee), base - (s + x),
               quote' + InFor(x, quote', base - s, fee));
  }

  /** A purchase does not bring a passed price back. */
  lemma LegKeepsPassed(d: Decimals, fee: Fee, base: int, quote: int, p: nat, q: int, s: nat)
    requires PoolPassed(d, fee, base, quote, p, q) && s < base
    ensures PoolPassed(d, fee, base - s, quote + InFor(s, quote, base, fee), p, q)
  {
    var base', quote' := base - s, quote + InFor(s, quote, base, fee);
    BidPriceGrows(d, fee, base, quote, s, s);
    assert PriceOf(d, base - s, quote') == BidPrice(d, fee, base, quote, s);
    hide PriceOf, BidPrice, InFor, Pow10;
    if PriceOf(d, base, quote) < p {
      forall x: nat | 2 * Pow10(d.base) <= x <= q && x < base' ensures BidPrice(d, fee, base', quote', x) > p {
        SplitPrice(d, fee, base, quote, s, x);
        BidPriceGrows(d, fee, base, quote, x, s + x);
      }
    }
  }

  /** After the leg that the search answered, the price is passed for all that is left. */
  lemma SearchPasses(p: nat, d: Decimals, fee: Fee, base: nat, quote: nat, r: nat, s: nat)
    requires base > 0 && quote > 0 && MaxSwap(true, p, d, fee, base, quote, r) == Ok(s)
    ensures s == 0 ==> PoolPassed(d, fee, base, quote, p, r)
    ensures s > 0 ==> s < base && PoolPassed(d, fee, base - s, quote + InFor(s, quote, base, fee), p, r - s)
  {
    hide PriceOf, BidPrice, InFor, MaxSwap, Pow10;
    BidLegStaysBelowTarget(p, d, fee, base, quote, r);
    if s > 0 {
      AnswerPasses(p, d, fee, base, quote, r, s);
    }
  }

  lemma AnswerPasses(p: nat, d: Decimals, fee: Fee, base: nat, quote: nat, r: nat, s: nat)
    requires 0 < s < base && quote > 0 && BidAnswer(d, fee, base, quote, p, r, Pow10(d.base), s)
    ensures PoolPassed(d, fee, base - s, quote + InFor(s, quote, base, fee), p, r - s)
  {
    var base', quote' := base - s, quote + InFor(s, quote, base, fee);
    assert PriceOf(d, base', quote') == BidPrice(d, fee, base, quote, s) by {
      hide PriceOf, InFor;
    }
    hide PriceOf, BidPrice, InFor, Pow10;
    if PriceOf(d, base', quote') < p {
      forall x: nat | 2 * Pow10(d.base) <= x <= r - s && x < base' ensures BidPrice(d, fee, base', quote', x) > p {
        SplitPrice(d, fee, base, quote, s, x);
        assert BidPrice(d, fee, base, quote, s + x) > p;
      }
    }
  }

  lemma {:induction false} PassedToTheEnd(d: Decimals, fee: Fee, pool: Pool, swaps: seq<Swap>, k: nat, p: nat, q: int)
    requires LegsPriced(true, fee, pool, swaps) && k <= |swaps|
    requires PoolPassed(d, fee, BaseBefore(true, pool, swaps, k), QuoteBefore(true, pool, swaps, k), p, q)
    ensures PoolPassed(d, fee, BaseBefore(true, pool, swaps, |swaps|), QuoteBefore(true, pool, swaps, |swaps|), p, q)
    decreases |swaps| - k
  {
    hide PoolPassed, InFor, BaseBefore, QuoteBefore;
    if k < |swaps| {
      var base, quote := BaseBefore(true, pool, swaps, k), QuoteBefore(true, pool, swaps, k);
      assert LegPriced(true, fee, base, quote, swaps[k]);
      LegKeepsPassed(d, fee, base, quote, p, q, swaps[k].base);
      BeforeNext(true, pool, swaps, k);
      PassedToTheEnd(d, fee, pool, swaps, k + 1, p, q);
    }
  }

  lemma TradedAfterPassed(c: Config, levels: Levels, pool: Pool, quantity: nat, swaps: seq<Swap>, trades: seq<Trade>,
      p: Index, i: nat, s: nat)
    requires LegsPriced(true, c.terms.fee, pool, swaps) && i <= |swaps|
    requires TradedAfter(true, c, levels, pool, quantity, swaps, trades, p, i, s)
    ensures PoolPassed(c.decimals, c.terms.fee, BaseBefore(true, pool, swaps, |swaps|),
                       QuoteBefore(true, pool, swaps, |swaps|), p, TradedAt(trades, p))
  {
    var r := Left(quantity, swaps, trades, i, p, true);
    var base, quote := BaseBefore(true, pool, swaps, i), QuoteBefore(true, pool, swaps, i);
    SearchPasses(p, c.decimals, c.terms.fee, base, quote, r, s);
    hide Left, BaseBefore, QuoteBefore, MaxSwap, InFor, PoolPassed, TradedAt, LevelTotal;
    var k := if s == 0 then i else i + 1;
    if s > 0 {
      assert LegPriced(true, c.terms.fee, base, quote, swaps[i]);
      BeforeNext(true, pool, swaps, i);
    }
    PassedToTheEnd(c.decimals, c.terms.fee, pool, swaps, k, p, r - s);
    PassedForLess(c.decimals, c.terms.fee, BaseBefore(true, pool, swaps, |swaps|),
                  QuoteBefore(true, pool, swaps, |swaps|), p, r - s, TradedAt(trades, p));
  }

  lemma PassedForLess(d: Decimals, fee: Fee, base: int, quote: int, p: nat, q: int, q': int)
    requires PoolPassed(d, fee, base, quote, p, q) && q' <= q
    ensures PoolPassed(d, fee, base, quote, p, q')
  {
    hide PriceOf, BidPrice;
  }

  /**
    A buyer trades at a price of the book only once the pool has come up to it: at the end of the match the pool price
    is there, or buying from the pool what was traded there, or any part of two base units or more, would pass it.
   */
  lemma PoolComesFirst(c: Config, desk: Desk, quantity: nat, p: Index)
    requires desk.swaps == [] && desk.trades == []
    ensures MatchFrom(true, c, desk, quantity).Ok? ==>
      var after := MatchFrom(true, c, desk, quantity).value;
      var traded := TradedAt(after.trades, p);
      traded > 0 ==> PoolPassed(c.decimals, c.terms.fee, after.pool.base, after.pool.quote, p, traded)
  {
    hide MatchFrom, TradedAt, PoolPassed, TradedAfter, LegLaw, LegsPriced, BaseBefore, QuoteBefore;
    if MatchFrom(true, c, desk, quantity).Ok? {
      var after := MatchFrom(true, c, desk, quantity).value;
      MatchFollowsSearch(true, c, desk, quantity);
      MatchLegsPriced(true, c, desk, quantity);
      if TradedAt(after.trades, p) > 0 {
        assert TradeLaw(true, c, desk.book.levels, desk.pool, quantity, after.swaps, after.trades, p);
        var i: nat, s: nat :| i <= |after.swaps|
          && TradedAfter(true, c, desk.book.levels, desk.pool, quantity, after.swaps, after.trades, p, i, s);
        TradedAfterPassed(c, desk.book.levels, desk.pool, quantity, after.swaps, after.trades, p, i, s);
      }
    }
  }
}

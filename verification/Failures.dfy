/** Exactly when a match fails: on its way through pool and book, or at its settlement. */
module Failures {
  import opened Amm
  import opened Effects
  import opened Freezes
  import opened Ledgers
  import opened Legs
  import opened Markets
  import opened MarketRuns
  import opened MarketSafety
  import opened Matching
  import opened OrderBook
  import opened Rounds
  import opened SwapSearch
  import opened Ticks
  import opened Wrappers

  // ---------- on the way ----------

  /** A pool leg that can be made: it has a price in range, leaves the pool its minimum, and the taker can spend it. */
  ghost predicate LegAllowed(isBid: bool, c: Config, desk: Desk, q: nat) {
    var p, fee, l := desk.pool, c.terms.fee, desk.ledger;
    if isBid then
      && q > 0 && GetAmountIn(q, p.quote, p.base, fee).Ok? && p.base >= q + c.terms.baseMinimum
      && Free(l, desk.taker, QuoteAsset) >= InFor(q, p.quote, p.base, fee)
    else
      && q > 0 && GetAmountOut(q, p.base, p.quote, fee).Ok?
      && p.quote >= OutOf(q, p.base, p.quote, fee) + c.terms.quoteMinimum
      && Free(l, desk.taker, BaseAsset) >= q
  }

  lemma LegAllowedIff(isBid: bool, c: Config, desk: Desk, q: nat)
    ensures PoolLeg(isBid, c, desk, q).Ok? <==> LegAllowed(isBid, c, desk, q)
  {
    hide GetAmountIn, GetAmountOut, InFor, OutOf, PaySwap, Free;
    var filled := FillPool(isBid, c, desk.pool, q);
    if filled.Ok? {
      PaysIff(isBid, desk.ledger, desk.taker, desk.taker, filled.value.1);
    }
  }

  /** The pool leg, if any, that the search asks for at the best price, and the book leg after it, if it is not all. */
  ghost function NextTurn(isBid: bool, c: Config, desk: Desk, remain: nat): (next: Option<(Desk, nat)>)
    ensures next.Some? ==>
      var (after, left) := next.value;
      |after.book.levels| < |desk.book.levels| || (|after.book.levels| == |desk.book.levels| && left < remain)
  {
    match Best(desk.book.levels, isBid)
    case None => None
    case Some(p) =>
      var swap := MaxSwap(isBid, p, c.decimals, c.terms.fee, desk.pool.base, desk.pool.quote, remain);
      if swap.Err? || remain <= swap.value then None
      else
        TurnShrinks(isBid, c, desk, p, swap.value, remain);
        match Turn(isBid, c, desk, p, swap.value, remain)
        case Ok(next) => Some(next)
        case Err(_) => None
  }

  /** `d`, with `r` of the order left, comes up in a match. */
  ghost predicate ComesUp(isBid: bool, c: Config, desk: Desk, remain: nat, d: Desk, r: nat)
    decreases |desk.book.levels|, remain
  {
    || (d == desk && r == remain)
    || var next := NextTurn(isBid, c, desk, remain);
       next.Some? && ComesUp(isBid, c, next.value.0, next.value.1, d, r)
  }

  /** Something is left, and the search fails or the leg it asks for cannot be made. */
  ghost predicate Stuck(isBid: bool, c: Config, desk: Desk, remain: nat) {
    && remain > 0
    && match Best(desk.book.levels, isBid)
       case None => !LegAllowed(isBid, c, desk, remain)
       case Some(p) =>
         var swap := MaxSwap(isBid, p, c.decimals, c.terms.fee, desk.pool.base, desk.pool.quote, remain);
         swap.Err? || (swap.value > 0 && !LegAllowed(isBid, c, desk, swap.value))
  }

  ghost predicate GetsStuck(isBid: bool, c: Config, desk: Desk, remain: nat) {
    exists d, r :: ComesUp(isBid, c, desk, remain, d, r) && Stuck(isBid, c, d, r)
  }

  lemma StuckNowOrLater(isBid: bool, c: Config, desk: Desk, remain: nat)
    ensures var next := NextTurn(isBid, c, desk, remain);
      GetsStuck(isBid, c, desk, remain)
      <==> Stuck(isBid, c, desk, remain) || (next.Some? && GetsStuck(isBid, c, next.value.0, next.value.1))
  {
    hide NextTurn, Stuck;
    var next := NextTurn(isBid, c, desk, remain);
    if Stuck(isBid, c, desk, remain) {
      assert ComesUp(isBid, c, desk, remain, desk, remain);
    }
    if next.Some? && GetsStuck(isBid, c, next.value.0, next.value.1) {
      var d, r :| ComesUp(isBid, c, next.value.0, next.value.1, d, r) && Stuck(isBid, c, d, r);
      assert ComesUp(isBid, c, desk, remain, d, r);
    }
  }

  /** What one round of a match comes to. */
  lemma MatchRoundFails(isBid: bool, c: Config, desk: Desk, remain: nat)
    ensures var matched, next := MatchFrom(isBid, c, desk, remain), NextTurn(isBid, c, desk, remain);
      if remain == 0 then matched == Ok(desk) && next.None?
      else if next.None? then matched.Err? <==> Stuck(isBid, c, desk, remain)
      else !Stuck(isBid, c, desk, remain) && matched == MatchFrom(isBid, c, next.value.0, next.value.1)
  {
    hide PoolLeg, MaxSwap, LegAllowed, BookLeg, BookFilled;
    LegAllowedIff(isBid, c, desk, remain);
    var best := Best(desk.book.levels, isBid);
    if best.Some? {
      SearchFits(isBid, best.value, c.decimals, c.terms.fee, desk.pool.base, desk.pool.quote, remain);
      var swap := MaxSwap(isBid, best.value, c.decimals, c.terms.fee, desk.pool.base, desk.pool.quote, remain);
      if swap.Ok? {
        LegAllowedIff(isBid, c, desk, swap.value);
      }
    }
  }

  /** A match fails exactly when it gets stuck on the way. */
  lemma {:induction false} MatchFailsIff(isBid: bool, c: Config, desk: Desk, remain: nat)
    ensures MatchFrom(isBid, c, desk, remain).Err? <==> GetsStuck(isBid, c, desk, remain)
    decreases |desk.book.levels|, remain
  {
    hide MatchFrom, NextTurn, GetsStuck, LegAllowed, MaxSwap;
    MatchRoundFails(isBid, c, desk, remain);
    StuckNowOrLater(isBid, c, desk, remain);
    var next := NextTurn(isBid, c, desk, remain);
    if next.Some? {
      MatchFailsIff(isBid, c, next.value.0, next.value.1);
    }
  }

  // ---------- at settlement ----------

  lemma {:induction false} TakerGives(isBid: bool, d: Decimals, trades: seq<Trade>, who: AccountId)
    ensures Traded(isBid, d, trades, FrozenAsset(!isBid)) == TradeSum(trades)
    ensures Made(isBid, d, trades, who, FrozenAsset(!isBid)) == TradesNeed(true, d, trades, who)
  {
    if trades != [] {
      var n := |trades| - 1;
      TakerGives(isBid, d, trades[..n], who);
      assert trades == trades[..n] + [trades[n]];
      TradeSumAppend(trades[..n], [trades[n]]);
      assert [trades[n]][1..] == [];
      TradesNeedSnoc(true, d, trades, who);
      hide TradesNeed;
    }
  }

  lemma {:induction false} OverflowFails(isBid: bool, d: Decimals, l: Ledger, orderer: AccountId, trades: seq<Trade>)
    requires Overflows(isBid, d, trades)
    ensures Settle(isBid, d, l, orderer, trades).Err?
    decreases |trades|
  {
    hide CheckedNeed;
    var i :| 0 <= i < |trades| && CheckedNeed(isBid, d, trades[i].price, trades[i].quantity).Err?;
    var front := trades[..|trades| - 1];
    if i < |front| {
      assert front[i] == trades[i];
      OverflowFails(isBid, d, l, orderer, front);
    }
  }

  /** A settled taker could spend what was traded, apart from what their own orders brought back. */
  lemma SettledTakerCouldSpend(isBid: bool, d: Decimals, l: Ledger, orderer: AccountId, trades: seq<Trade>)
    requires Solvent(l) && Settle(isBid, d, l, orderer, trades).Ok?
    ensures Free(l, orderer, FrozenAsset(!isBid)) + TradesNeed(true, d, trades, orderer) >= TradeSum(trades)
  {
    hide Settle, Solvent, BalanceOf, FrozenOf, Traded, Made, TradesNeed, TradeSum;
    var a, after := FrozenAsset(!isBid), Settle(isBid, d, l, orderer, trades).value;
    SettlePays(isBid, d, l, orderer, trades, orderer, a);
    TakerGives(isBid, d, trades, orderer);
    SettleKeepsSolvent(isBid, d, l, orderer, trades);
    assert FrozenOf(after, orderer, a) <= BalanceOf(after, orderer, a) by {
      SolventAt(after, orderer, a);
    }
  }

  lemma SolventAt(l: Ledger, who: AccountId, a: Asset)
    requires Solvent(l)
    ensures FrozenOf(l, who, a) <= BalanceOf(l, who, a)
  {
  }

  /** What the taker must be able to spend for a match. */
  ghost function Spends(isBid: bool, run: Desk): nat {
    (if isBid then QuoteSum(run.swaps) else SwapSum(run.swaps)) + TradeSum(run.trades)
  }

  /** The pool legs have taken their part of it already; a seller spends the quantity of the order, no more. */
  lemma RunSpends(c: Config, m: Market, isBid: bool, taker: AccountId, quantity: nat)
    requires RunOf(c, m, isBid, taker, quantity).Ok?
    ensures var run, a := RunOf(c, m, isBid, taker, quantity).value, FrozenAsset(!isBid);
      && Free(m.ledger, taker, a) == Free(run.ledger, taker, a) + Spends(isBid, run) - TradeSum(run.trades)
      && (!isBid ==> Spends(isBid, run) == quantity)
  {
    hide MatchFrom, BalanceOf, FrozenOf, SwapSum, QuoteSum, TradeSum;
    LegsPaid(isBid, c, DeskOf(m, isBid, taker), quantity, taker, FrozenAsset(!isBid));
    MatchKeepsFrozen(isBid, c, DeskOf(m, isBid, taker), quantity, taker, FrozenAsset(!isBid));
    RunFills(c, m, isBid, taker, quantity);
  }

  /**
    In a sound market, a taker without orders of their own on the other side has their order executed exactly when the
    run does not get stuck, no trade's worth overflows, and they can spend what its legs and trades take.
   */
  lemma MatchSucceedsIff(c: Config, m: Market, isBid: bool, taker: AccountId, quantity: nat)
    requires Sound(c, m) && Solvent(m.ledger) && NoOrdersOf(SideOf(m, isBid).levels, taker)
    ensures MatchOrder(c, m, isBid, taker, quantity).Ok?
       <==> && !GetsStuck(isBid, c, DeskOf(m, isBid, taker), quantity)
            && var run := RunOf(c, m, isBid, taker, quantity);
            && run.Ok? && !Overflows(isBid, c.decimals, run.value.trades)
            && Free(m.ledger, taker, FrozenAsset(!isBid)) >= Spends(isBid, run.value)
  {
    hide MatchFrom, GetsStuck, Settle, Overflows, Free, Spends, Sound, Solvent, NoOrdersOf;
    hide TradesNeed, TradeSum, BookNeed;
    var run := RunOf(c, m, isBid, taker, quantity);
    MatchFailsIff(isBid, c, DeskOf(m, isBid, taker), quantity);
    if run.Ok? {
      var trades := run.value.trades;
      RunSpends(c, m, isBid, taker, quantity);
      LegsKeepSolvent(isBid, c, DeskOf(m, isBid, taker), quantity);
      MakersDeliver(c, m, isBid, taker, quantity);
      if Overflows(isBid, c.decimals, trades) {
        OverflowFails(isBid, c.decimals, run.value.ledger, taker, trades);
      }
      if MatchOrder(c, m, isBid, taker, quantity).Ok? {
        SettledTakerCouldSpend(isBid, c.decimals, run.value.ledger, taker, trades);
        MatchReleasesWithinNeed(isBid, true, c, DeskOf(m, isBid, taker), quantity, taker);
        NoOrdersNoNeed(true, c.decimals, SideOf(m, isBid).levels, taker);
        NoTradesNoNeed(true, c.decimals, taker);
      }
    }
  }
}

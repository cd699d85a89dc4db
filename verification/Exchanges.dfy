/**
  The exchange itself: two crit-bit order books, the pool, the id counters and the accounts, updated in place.

  Each call is shown to do to the exchange what the function of `Markets` does to its view, and a call that
  fails puts everything back, as the storage transaction around it does.
 */
module Exchanges {
  import Amm
  import opened Bits
  import opened Critbit
  import opened Errors
  import opened Freezes
  import opened Ledgers
  import opened Liquidity
  import opened Markets
  import opened Matching
  import opened OrderBook
  import opened SwapSearch
  import opened Ticks
  import opened Wrappers

  // ---------- one round of matching ----------

  lemma MatchWithoutBook(isBid: bool, c: Config, desk: Desk, remain: nat)
    requires Best(desk.book.levels, isBid).None?
    ensures MatchFrom(isBid, c, desk, remain) == if remain == 0 then Ok(desk) else PoolLeg(isBid, c, desk, remain)
  {
  }

  /** What one round does to the rest of a match. */
  lemma MatchRound(isBid: bool, c: Config, desk: Desk, remain: nat, target: Index)
    requires remain > 0 && Best(desk.book.levels, isBid) == Some(target)
    ensures var search := MaxSwap(isBid, target, c.decimals, c.terms.fee, desk.pool.base, desk.pool.quote, remain);
      var result := MatchFrom(isBid, c, desk, remain);
      if search.Err? then result == Err(search.error)
      else if remain <= search.value then result == PoolLeg(isBid, c, desk, remain)
      else
        var swapped := if search.value == 0 then Ok(desk) else PoolLeg(isBid, c, desk, search.value);
        if swapped.Err? then result == Err(swapped.error)
        else
          var left := remain - search.value;
          && target in swapped.value.book.levels
          && result == MatchFrom(isBid, c, BookLeg(swapped.value, target, left),
                                 left - BookFilled(swapped.value.book, target, left))
          && (left > BookFilled(swapped.value.book, target, left) ==>
              |BookLeg(swapped.value, target, left).book.levels| < |desk.book.levels|)
  {
    hide MaxSwap, PoolLeg, BookLeg, BookFilled;
    var search := MaxSwap(isBid, target, c.decimals, c.terms.fee, desk.pool.base, desk.pool.quote, remain);
    if search.Ok? && search.value < remain {
      var swapped := if search.value == 0 then Ok(desk) else PoolLeg(isBid, c, desk, search.value);
      if swapped.Ok? {
        if search.value > 0 {
          PoolLegKeepsBook(isBid, c, desk, search.value);
        }
        TurnShrinks(isBid, c, desk, target, search.value, remain);
      }
    }
  }

  class Exchange {
    const config: Config
    const bids: CritbitTree<Tick>
    const asks: CritbitTree<Tick>
    var nextBidOrderId: OrderId
    var nextAskOrderId: OrderId
    var pool: Pool
    var ledger: Ledger
    var shares: Shares

    ghost predicate Valid()
      reads this, bids, asks
    {
      ValidConfig(config) && bids != asks && bids.Valid() && asks.Valid()
    }

    /** The market the exchange stands for. */
    ghost function View(): Market
      reads this, bids, asks
    {
      Market(BookOf(bids), BookOf(asks), nextBidOrderId, nextAskOrderId, pool, ledger, shares)
    }

    constructor (config: Config, ledger: Ledger)
      requires ValidConfig(config)
      ensures Valid() && fresh(bids) && fresh(asks) && this.config == config
      ensures View() == NewMarket(ledger)
    {
      this.config := config;
      var b := new CritbitTree<Tick>();
      var a := new CritbitTree<Tick>();
      bids, asks := b, a;
      nextBidOrderId, nextAskOrderId := 0, ASK_ID_START;
      pool := Pool(0, 0, 0);
      this.ledger := ledger;
      shares := map[];
    }

    /** `do_fill_pool`. */
    method TakeFromPool(isBid: bool, who: AccountId, quantity: nat) returns (r: Result<Swap, MarketError>)
      modifies `pool, `ledger
      ensures match FillPool(isBid, config, old(pool), quantity)
        case Err(e) => r == Err(e)
        case Ok((after, swap)) =>
          match PaySwap(isBid, old(ledger), who, who, swap)
          case Err(e) => r == Err(e)
          case Ok(l) => r == Ok(swap) && pool == after && ledger == l
    {
      var swapped :- FillPool(isBid, config, pool, quantity);
      var paid :- PaySwap(isBid, ledger, who, who, swapped.1);
      pool, ledger := swapped.0, paid;
      return Ok(swapped.1);
    }

    /** The best price on the side a taker meets. */
    method NextOrder(isBid: bool) returns (r: Option<Index>)
      requires Valid()
      ensures r == Best((if isBid then asks else bids).contents, isBid)
    {
      var best;
      if isBid {
        best := MinOrder(asks);
      } else {
        best := MaxOrder(bids);
      }
      return PriceIn(best);
    }

    /** `do_fill_book`. */
    method TakeFromBook(isBid: bool, price: Index, quantity: nat) returns (left: nat, trades: seq<Trade>)
      requires Valid() && price in (if isBid then asks else bids).contents
      modifies if isBid then asks else bids
      ensures Valid()
      ensures var tree := if isBid then asks else bids;
        && BookOf(tree) == FillIn(old(BookOf(tree)), price, quantity)
        && trades == AtPrice(price, BookFills(old(BookOf(tree)), price, quantity))
        && left == quantity - BookFilled(old(BookOf(tree)), price, quantity)
    {
      var tree := if isBid then asks else bids;
      ghost var book := BookOf(tree);
      var filled := FillOrder(tree, price, quantity);
      FillConserves(book.levels[price].openOrders, quantity);
      var fills := if filled.Some? then filled.value else [];
      trades := AtPrice(price, fills);
      left := quantity - SumFills(fills);
    }

    ghost function Opposite(isBid: bool): CritbitTree<Tick> {
      if isBid then asks else bids
    }

    /** The match in progress. */
    ghost function Here(isBid: bool, who: AccountId, swaps: seq<Swap>, trades: seq<Trade>): Desk
      reads this, bids, asks
    {
      Desk(BookOf(Opposite(isBid)), pool, who, ledger, swaps, trades)
    }

    /** A pool leg within a match. */
    method SwapLeg(isBid: bool, who: AccountId, quantity: nat, ghost swaps: seq<Swap>, ghost trades: seq<Trade>)
      returns (r: Result<(), MarketError>, ghost swaps': seq<Swap>)
      modifies `pool, `ledger
      ensures match PoolLeg(isBid, config, old(Here(isBid, who, swaps, trades)), quantity)
        case Ok(desk) => r == Ok(()) && desk == Here(isBid, who, swaps', trades)
        case Err(e) => r == Err(e)
    {
      hide FillPool, PaySwap;
      swaps' := swaps;
      var swap :- TakeFromPool(isBid, who, quantity);
      swaps' := swaps + [swap];
      r := Ok(());
    }

    /** One round of the matching loop at the best opposing price. */
    method Round(isBid: bool, who: AccountId, target: Index, remain: nat, trades: seq<Trade>, ghost swaps: seq<Swap>)
      returns (r: Result<nat, MarketError>, trades': seq<Trade>, ghost swaps': seq<Swap>)
      requires Valid() && remain > 0 && Best(Opposite(isBid).contents, isBid) == Some(target)
      modifies `pool, `ledger, Opposite(isBid)
      ensures Valid()
      ensures r.Ok? ==>
        && MatchFrom(isBid, config, old(Here(isBid, who, swaps, trades)), remain)
           == MatchFrom(isBid, config, Here(isBid, who, swaps', trades'), r.value)
        && |Opposite(isBid).contents| <= old(|Opposite(isBid).contents|)
        && (r.value == 0 || |Opposite(isBid).contents| < old(|Opposite(isBid).contents|))
      ensures r.Err? ==> MatchFrom(isBid, config, old(Here(isBid, who, swaps, trades)), remain) == Err(r.error)
    {
      hide MatchFrom, PoolLeg, MaxSwap, FillIn, BookFilled, BookFills, AtPrice, CritbitTree.Valid;
      ghost var desk := Here(isBid, who, swaps, trades);
      MatchRound(isBid, config, desk, remain, target);
      trades', swaps' := trades, swaps;
      var maxSwapQuantity :-
        FindMaxSwapQuantity(isBid, target, config.decimals, config.terms.fee, pool.base, pool.quote, remain);
      if remain <= maxSwapQuantity {
        var leg;
        leg, swaps' := SwapLeg(isBid, who, remain, swaps, trades);
        if leg.Err? {
          return Err(leg.error), trades, swaps';
        }
        MatchOfNothing(isBid, config, Here(isBid, who, swaps', trades));
        return Ok(0), trades, swaps';
      }
      if maxSwapQuantity != 0 {
        var leg;
        leg, swaps' := SwapLeg(isBid, who, maxSwapQuantity, swaps, trades);
        if leg.Err? {
          return Err(leg.error), trades, swaps';
        }
      }
      ghost var swapped := Here(isBid, who, swaps', trades);
      var left, taken := TakeFromBook(isBid, target, remain - maxSwapQuantity);
      FillNeverGrows(swapped.book, target, remain - maxSwapQuantity);
      trades' := trades + taken;
      assert Here(isBid, who, swaps', trades') == BookLeg(swapped, target, remain - maxSwapQuantity);
      return Ok(left), trades', swaps';
    }

    /** `handle_filled_orders`. */
    method HandleFilledOrders(isBid: bool, orderer: AccountId, trades: seq<Trade>) returns (r: Result<(), MarketError>)
      modifies `ledger
      ensures match Settle(isBid, config.decimals, old(ledger), orderer, trades)
        case Ok(l) => r == Ok(()) && ledger == l
        case Err(e) => r == Err(e)
    {
      hide SettleOne;
      for i := 0 to |trades|
        invariant Settle(isBid, config.decimals, old(ledger), orderer, trades[..i]) == Ok(ledger)
      {
        assert trades[..i + 1][..i] == trades[..i];
        var settled := SettleOne(isBid, config.decimals, ledger, orderer, trades[i]);
        if settled.Err? {
          SettlementStops(isBid, config.decimals, old(ledger), orderer, trades, i + 1);
          return Err(settled.error);
        }
        ledger := settled.value;
      }
      assert trades[..|trades|] == trades;
      return Ok(());
    }

    /** `do_match_order`: the whole match, then its settlement. */
    method DoMatchOrder(isBid: bool, orderer: AccountId, quantity: nat) returns (r: Result<(), MarketError>)
      requires Valid()
      modifies `pool, `ledger, Opposite(isBid)
      ensures Valid()
      ensures r.Ok? ==> MatchOrder(config, old(View()), isBid, orderer, quantity) == Ok(View())
      ensures r.Err? ==> MatchOrder(config, old(View()), isBid, orderer, quantity) == Err(r.error)
    {
      hide MatchFrom, Settle, CritbitTree.Valid;
      ghost var desk := Here(isBid, orderer, [], []);
      var remain, trades := quantity, [];
      ghost var swaps := [];
      while remain > 0
        invariant Valid()
        invariant MatchFrom(isBid, config, desk, quantity)
               == MatchFrom(isBid, config, Here(isBid, orderer, swaps, trades), remain)
        decreases |Opposite(isBid).contents|, remain
      {
        var next := NextOrder(isBid);
        if next.None? {
          break;
        }
        var round;
        round, trades, swaps := Round(isBid, orderer, next.value, remain, trades, swaps);
        if round.Err? {
          return Err(round.error);
        }
        remain := round.value;
      }
      if remain > 0 {
        MatchWithoutBook(isBid, config, Here(isBid, orderer, swaps, trades), remain);
        var leg;
        leg, swaps := SwapLeg(isBid, orderer, remain, swaps, trades);
        if leg.Err? {
          return Err(leg.error);
        }
      } else {
        MatchOfNothing(isBid, config, Here(isBid, orderer, swaps, trades));
      }
      assert MatchFrom(isBid, config, desk, quantity) == Ok(Here(isBid, orderer, swaps, trades));
      r := HandleFilledOrders(isBid, orderer, trades);
    }

    /** `Pool::place_order`. */
    method PlaceOrderOnSide(isBid: bool, owner: AccountId, price: Index, quantity: nat)
      returns (r: Result<(), MarketError>)
      requires Valid()
      modifies this, bids, asks
      ensures r.Ok? ==> Valid() && PlaceOnSide(old(View()), isBid, owner, price, quantity) == Ok(View())
      ensures r.Err? ==> PlaceOnSide(old(View()), isBid, owner, price, quantity) == Err(r.error)
    {
      hide PlaceIn, CheckedIncrease, CritbitTree.Valid;
      var id := if isBid then nextBidOrderId else nextAskOrderId;
      var next := CheckedIncrease(id);
      if next.None? {
        return Err(IdsExhausted);
      }
      var placed;
      if isBid {
        nextBidOrderId := next.value;
        placed := PlaceOrder(bids, id, owner, price, quantity);
      } else {
        nextAskOrderId := next.value;
        placed := PlaceOrder(asks, id, owner, price, quantity);
      }
      if placed.Err? {
        return Err(BookRefused);
      }
      return Ok(());
    }

    /** `do_place_order`. */
    method DoPlaceOrder(isBid: bool, maker: AccountId, price: Index, quantity: nat) returns (r: Result<(), MarketError>)
      requires Valid()
      modifies this, bids, asks
      ensures r.Ok? ==> Valid() && RestOrder(config, old(View()), isBid, maker, price, quantity) == Ok(View())
      ensures r.Err? ==> RestOrder(config, old(View()), isBid, maker, price, quantity) == Err(r.error)
    {
      hide PlaceOnSide, CheckedNeed, Freeze, CritbitTree.Valid;
      var amount :- CheckedNeed(!isBid, config.decimals, price, quantity);
      var frozen :- Freeze(ledger, maker, FrozenAsset(!isBid), amount);
      ledger := frozen;
      r := PlaceOrderOnSide(isBid, maker, price, quantity);
    }

    /** `do_limit_order`. */
    method DoLimitOrder(isBid: bool, maker: AccountId, price: Index, quantity: nat) returns (r: Result<(), MarketError>)
      requires Valid()
      modifies this, bids, asks
      ensures r.Ok? ==> Valid() && LimitOrder(config, old(View()), isBid, maker, price, quantity) == Ok(View())
      ensures r.Err? ==> LimitOrder(config, old(View()), isBid, maker, price, quantity) == Err(r.error)
    {
      hide MatchOrder, RestOrder, PoolPrice, CritbitTree.Valid;
      if pool.base == 0 || pool.quote == 0 {
        return Err(Refused(Amm.ZeroLiquidity));
      }
      var poolPrice :- NoQuoteNoLiquidity(PoolPrice(config.decimals, pool.base, pool.quote));
      if !ValidPrice(config, price) {
        return Err(InvalidOrderPrice);
      }
      if !ValidQuantity(config, quantity) {
        return Err(InvalidOrderQuantity);
      }
      if Marketable(isBid, price, poolPrice) {
        r := DoMatchOrder(isBid, maker, quantity);
      } else {
        r := DoPlaceOrder(isBid, maker, price, quantity);
      }
    }

    /** `do_market_order`. */
    method DoMarketOrder(isBid: bool, taker: AccountId, quantity: nat) returns (r: Result<(), MarketError>)
      requires Valid()
      modifies `pool, `ledger, Opposite(isBid)
      ensures Valid()
      ensures r.Ok? ==> MarketOrder(config, old(View()), isBid, taker, quantity) == Ok(View())
      ensures r.Err? ==> MarketOrder(config, old(View()), isBid, taker, quantity) == Err(r.error)
    {
      hide MatchOrder, CritbitTree.Valid;
      if quantity == 0 {
        return Err(MarketError.WrongDesiredAmount);
      }
      if !ValidQuantity(config, quantity) {
        return Err(InvalidOrderQuantity);
      }
      r := DoMatchOrder(isBid, taker, quantity);
    }

    /** `do_cancel_order`. */
    method DoCancelOrder(owner: AccountId, price: Index, id: OrderId, quantity: nat)
      returns (r: Result<(), MarketError>)
      requires Valid()
      modifies bids, asks
      ensures Valid()
      ensures match CancelOnSide(old(View()), owner, price, id, quantity)
        case Ok(m) => r == Ok(()) && View() == m
        case Err(e) => r == Err(e) && unchanged(this, bids, asks)
    {
      hide CancelIn, IsBidId, CritbitTree.Valid;
      var canceled;
      if IsBidId(id) {
        canceled := CancelOrder(bids, owner, price, id, quantity);
      } else {
        canceled := CancelOrder(asks, owner, price, id, quantity);
      }
      r := if canceled.Ok? then Ok(()) else Err(BookRefused);
    }

    // ---------- liquidity and swaps ----------

    /** The first half of `add_liquidity`: what is taken from the depositor. */
    method ChooseAmounts(op: Op) returns (r: Result<(nat, nat), MarketError>)
      requires op.Add?
      ensures r == PoolResult(TakenAmounts(config.terms, pool, op.baseDesired, op.quoteDesired,
                                           op.baseMin, op.quoteMin))
    {
      hide Amm.Quote;
      if op.baseDesired == 0 || op.quoteDesired == 0 {
        return Err(PoolRefused(LiquidityError.WrongDesiredAmount));
      }
      var base, quote := op.baseDesired, op.quoteDesired;
      if pool.base != 0 && pool.quote != 0 {
        var quoteOptimal :- FromAmm(Amm.Quote(op.baseDesired, pool.base, pool.quote));
        if quoteOptimal <= op.quoteDesired {
          if quoteOptimal < op.quoteMin {
            return Err(PoolRefused(AssetTwoDepositDidNotMeetMinimum));
          }
          quote := quoteOptimal;
        } else {
          var baseOptimal :- FromAmm(Amm.Quote(op.quoteDesired, pool.quote, pool.base));
          if baseOptimal > op.baseDesired {
            return Err(PoolRefused(OptimalAmountLessThanDesired));
          }
          if baseOptimal < op.baseMin {
            return Err(PoolRefused(AssetOneDepositDidNotMeetMinimum));
          }
          base := baseOptimal;
        }
      }
      if base + pool.base < config.terms.baseMinimum {
        return Err(PoolRefused(AmountOneLessThanMinimal));
      }
      if quote + pool.quote < config.terms.quoteMinimum {
        return Err(PoolRefused(AmountTwoLessThanMinimal));
      }
      return Ok((base, quote));
    }

    /** Its second half: the shares to mint, after the assets were taken. */
    method CountShares(base: nat, quote: nat) returns (r: Result<nat, MarketError>)
      ensures r == PoolResult(MintedFor(pool, base, quote))
    {
      hide Amm.MulDiv, SharesForFirstDeposit;
      var minted := 0;
      if pool.supply == 0 {
        minted :- PoolResult(SharesForFirstDeposit(base, quote));
      } else {
        var side1 :- FromAmm(Amm.MulDiv(base, pool.supply, pool.base));
        var side2 :- FromAmm(Amm.MulDiv(quote, pool.supply, pool.quote));
        minted := Min(side1, side2);
      }
      if minted <= MINT_MIN_LIQUIDITY {
        return Err(PoolRefused(InsufficientLiquidityMinted));
      }
      return Ok(minted);
    }

    /** `add_liquidity`. */
    method DoAddLiquidity(who: AccountId, to: AccountId, op: Op) returns (r: Result<(), MarketError>)
      requires op.Add?
      modifies `pool, `ledger, `shares
      ensures match AddCall(config, old(Held()), who, to, op)
        case Ok(f) => r.Ok? && Held() == f
        case Err(e) => r == Err(e) && unchanged(this)
    {
      hide Withdraw, TakenAmounts, MintedFor;
      var amounts :- ChooseAmounts(op);
      var (base, quote) := amounts;
      var l1 :- Withdraw(ledger, who, BaseAsset, base);
      var l2 :- Withdraw(l1, who, QuoteAsset, quote);
      var minted :- CountShares(base, quote);
      var locked := if pool.supply == 0 then MINT_MIN_LIQUIDITY else 0;
      pool := Pool(pool.base + base, pool.quote + quote, pool.supply + locked + minted);
      ledger, shares := l2, Mint(shares, to, minted);
      return Ok(());
    }

    /** `remove_liquidity`. */
    method DoRemoveLiquidity(who: AccountId, to: AccountId, op: Op) returns (r: Result<(), MarketError>)
      requires op.Remove?
      modifies `pool, `ledger, `shares
      ensures match RemoveCall(config, old(Held()), who, to, op)
        case Ok(f) => r.Ok? && Held() == f
        case Err(e) => r == Err(e) && unchanged(this)
    {
      hide Amm.MulDiv, Credit, Burn;
      if op.burn == 0 {
        return Err(PoolRefused(ZeroLiquidityBurnt));
      }
      var redeem := if op.withdrawalFee <= op.burn then op.burn - op.withdrawalFee else 0;
      var base :- FromAmm(Amm.MulDiv(redeem, pool.base, pool.supply));
      var quote :- FromAmm(Amm.MulDiv(redeem, pool.quote, pool.supply));
      if base == 0 || base < op.baseMin {
        return Err(PoolRefused(AssetOneWithdrawalDidNotMeetMinimum));
      }
      if quote == 0 || quote < op.quoteMin {
        return Err(PoolRefused(AssetTwoWithdrawalDidNotMeetMinimum));
      }
      if pool.base < base + config.terms.baseMinimum || pool.quote < quote + config.terms.quoteMinimum {
        return Err(PoolRefused(ReserveLeftLessThanMinimal));
      }
      if op.burn + MINT_MIN_LIQUIDITY > pool.supply {
        return Err(LedgerRefused);
      }
      var left :- Burn(shares, who, op.burn);
      pool, shares := Pool(pool.base - base, pool.quote - quote, pool.supply - op.burn), left;
      ledger := Credit(ledger, to, BaseAsset, base);
      ledger := Credit(ledger, to, QuoteAsset, quote);
      return Ok(());
    }

    /** The single-hop swaps. */
    method DoSwap(who: AccountId, to: AccountId, op: Op) returns (r: Result<(), MarketError>)
      requires op.ExactIn? || op.ExactOut?
      modifies `pool, `ledger
      ensures match SwapCall(config, old(Held()), who, to, op)
        case Ok(f) => r.Ok? && Held() == f
        case Err(e) => r == Err(e) && unchanged(this)
    {
      hide Amm.GetAmountIn, Amm.GetAmountOut, Withdraw, Credit;
      var payBase := op.paying == Base;
      var (reserveIn, reserveOut) := if payBase then (pool.base, pool.quote) else (pool.quote, pool.base);
      var amountIn, amountOut;
      if op.ExactIn? {
        if op.amountIn == 0 {
          return Err(PoolRefused(ZeroAmount));
        }
        amountIn := op.amountIn;
        amountOut :- FromAmm(Amm.GetAmountOut(amountIn, reserveIn, reserveOut, config.terms.fee));
      } else {
        if op.amountOut == 0 {
          return Err(PoolRefused(ZeroAmount));
        }
        amountOut := op.amountOut;
        amountIn :- FromAmm(Amm.GetAmountIn(amountOut, reserveIn, reserveOut, config.terms.fee));
      }
      var paid := Withdraw(ledger, who, if payBase then BaseAsset else QuoteAsset, amountIn);
      var minimum := if payBase then config.terms.quoteMinimum else config.terms.baseMinimum;
      if paid.Err? || reserveOut < amountOut + minimum {
        WithdrawErrors(ledger, who, if payBase then BaseAsset else QuoteAsset, amountIn);
        return Err(LedgerRefused);
      }
      if payBase {
        pool := pool.(base := pool.base + amountIn, quote := pool.quote - amountOut);
        ledger := Credit(paid.value, to, QuoteAsset, amountOut);
      } else {
        pool := pool.(base := pool.base - amountOut, quote := pool.quote + amountIn);
        ledger := Credit(paid.value, to, BaseAsset, amountOut);
      }
      return Ok(());
    }

    method DoDonate(who: AccountId, base: nat, quote: nat) returns (r: Result<(), MarketError>)
      modifies `pool, `ledger
      ensures match DonateCall(old(Held()), who, base, quote)
        case Ok(f) => r.Ok? && Held() == f
        case Err(e) => r == Err(e) && unchanged(this)
    {
      hide Withdraw;
      var l1 :- Withdraw(ledger, who, BaseAsset, base);
      var l2 :- Withdraw(l1, who, QuoteAsset, quote);
      pool, ledger := pool.(base := pool.base + base, quote := pool.quote + quote), l2;
      return Ok(());
    }

    ghost function Held(): Funds
      reads this
    {
      Funds(pool, ledger, shares)
    }

    /** Deposits, withdrawals and swaps. */
    method DoLiquidityCall(who: AccountId, to: AccountId, op: Op) returns (r: Result<(), MarketError>)
      requires Valid()
      modifies `pool, `ledger, `shares
      ensures Valid()
      ensures match LiquidityCall(config, old(View()), who, to, op)
        case Ok(m) => r.Ok? && View() == m
        case Err(e) => r == Err(e) && unchanged(this)
    {
      hide CritbitTree.Valid, AddCall, RemoveCall, SwapCall, DonateCall;
      match op
      case Add(_, _, _, _) => r := DoAddLiquidity(who, to, op);
      case Remove(_, _, _, _) => r := DoRemoveLiquidity(who, to, op);
      case ExactIn(_, _) => r := DoSwap(who, to, op);
      case ExactOut(_, _) => r := DoSwap(who, to, op);
      case Donate(base, quote) => r := DoDonate(who, base, quote);
    }

    // ---------- calls as transactions ----------

    method Execute(call: Call) returns (r: Result<(), MarketError>)
      requires Valid()
      modifies this, bids, asks
      ensures r.Ok? ==> Valid() && Perform(config, old(View()), call) == Ok(View())
      ensures r.Err? ==> Perform(config, old(View()), call) == Err(r.error)
    {
      hide CritbitTree.Valid, MarketOrder, LimitOrder, CancelOnSide, LiquidityCall;
      match call
      case Taking(isBid, who, quantity) => r := DoMarketOrder(isBid, who, quantity);
      case Limit(isBid, who, price, quantity) => r := DoLimitOrder(isBid, who, price, quantity);
      case Cancelling(who, price, id, quantity) => r := DoCancelOrder(who, price, id, quantity);
      case Providing(who, to, op) => r := DoLiquidityCall(who, to, op);
    }

    /** One call, inside its transaction. */
    method Submit(call: Call) returns (r: Result<(), MarketError>)
      requires Valid()
      modifies this, bids, asks
      ensures Valid() && View() == After(config, old(View()), call)
      ensures match Perform(config, old(View()), call)
        case Ok(_) => r.Ok?
        case Err(e) => r == Err(e)
    {
      hide Perform, CritbitTree.Valid, BookOf;
      var savedBids := bids.Save();
      var savedAsks := asks.Save();
      var nextBid, nextAsk := nextBidOrderId, nextAskOrderId;
      var savedPool, savedLedger, savedShares := pool, ledger, shares;
      r := Execute(call);
      if r.Err? {
        bids.Restore(savedBids);
        asks.Restore(savedAsks);
        nextBidOrderId, nextAskOrderId := nextBid, nextAsk;
        pool, ledger, shares := savedPool, savedLedger, savedShares;
        SameStateSameValidity(bids);
        SameStateSameValidity(asks);
      }
    }
  }

  /** Every run of calls on a new exchange leaves it where the same run leaves the market. */
  method RunCalls(config: Config, ledger: Ledger, calls: seq<Call>) returns (x: Exchange)
    requires ValidConfig(config)
    ensures x.Valid() && x.config == config
    ensures x.View() == AfterAll(config, NewMarket(ledger), calls)
  {
    hide After;
    x := new Exchange(config, ledger);
    ghost var m := x.View();
    for i := 0 to |calls|
      invariant x.Valid() && x.config == config && fresh(x) && fresh(x.bids) && fresh(x.asks)
      invariant AfterAll(config, m, calls) == AfterAll(config, x.View(), calls[i..])
    {
      assert calls[i..][1..] == calls[i + 1..];
      var r := x.Submit(calls[i]);
    }
  }

  lemma {:induction false} SettlementStops(isBid: bool, d: Decimals, l: Ledger, orderer: AccountId,
      trades: seq<Trade>, n: nat)
    requires n <= |trades| && Settle(isBid, d, l, orderer, trades[..n]).Err?
    ensures Settle(isBid, d, l, orderer, trades) == Settle(isBid, d, l, orderer, trades[..n])
    decreases |trades|
  {
    if n < |trades| {
      var front := trades[..|trades| - 1];
      assert front[..n] == trades[..n];
      SettlementStops(isBid, d, l, orderer, front, n);
    } else {
      assert trades[..n] == trades;
    }
  }
}

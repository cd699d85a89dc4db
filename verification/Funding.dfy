/**
  What the liquidity calls do to every account, every share holder and the pool, and exactly when they go through.

  Whoever pays and whoever receives may be the same account: amounts that come and go are then added up.
 */
module Funding {
  import opened Amm
  import opened Effects
  import opened Freezes
  import opened Ledgers
  import opened Liquidity
  import opened Markets
  import opened MarketSafety
  import opened Matching
  import opened Ticks
  import opened Wrappers

  /** `out` of an asset leaves `from` and `into` of it arrives at `to`. */
  ghost predicate Flows(l: Ledger, l': Ledger, a: Asset, from: AccountId, out: nat, to: AccountId, into: nat) {
    forall x ::
      BalanceOf(l', x, a) == BalanceOf(l, x, a) + (if x == to then into else 0) - (if x == from then out else 0)
  }

  /** The `Out` amounts leave `from`, the `In` amounts arrive at `to`, and freezes and all other accounts stay. */
  ghost predicate Paid(l: Ledger, l': Ledger, from: AccountId, baseOut: nat, quoteOut: nat, to: AccountId, baseIn: nat,
      quoteIn: nat)
  {
    && Flows(l, l', BaseAsset, from, baseOut, to, baseIn) && Flows(l, l', QuoteAsset, from, quoteOut, to, quoteIn)
    && (forall x, a :: FrozenOf(l', x, a) == FrozenOf(l, x, a))
  }

  // ---------- paying both assets ----------

  /** Two withdrawals from one account go through exactly when both amounts are free. */
  lemma PairPays(l: Ledger, who: AccountId, base: nat, quote: nat)
    ensures var l1 := Withdraw(l, who, BaseAsset, base);
      && ((l1.Ok? && Withdraw(l1.value, who, QuoteAsset, quote).Ok?)
          <==> Free(l, who, BaseAsset) >= base && Free(l, who, QuoteAsset) >= quote)
      && (l1.Ok? && Withdraw(l1.value, who, QuoteAsset, quote).Ok? ==>
          Paid(l, Withdraw(l1.value, who, QuoteAsset, quote).value, who, base, quote, who, 0, 0))
  {
  }

  lemma PairGets(l: Ledger, to: AccountId, base: nat, quote: nat)
    ensures Paid(l, Credit(Credit(l, to, BaseAsset, base), to, QuoteAsset, quote), to, 0, 0, to, base, quote)
  {
  }

  /** Shares of `who` change by `amount`, and nobody else's do. */
  ghost predicate SharesMoved(s: Shares, s': Shares, who: AccountId, amount: int) {
    forall x :: SharesOf(s', x) == SharesOf(s, x) + (if x == who then amount else 0)
  }

  // ---------- deposits ----------

  /** What a deposit may take: the cut amounts, which must leave the pool with its minimum balances. */
  ghost predicate Takes(t: Terms, p: Pool, op: Op, base: nat, quote: nat)
    requires op.Add?
  {
    && op.baseDesired > 0 && op.quoteDesired > 0
    && DepositAmounts(p, op.baseDesired, op.quoteDesired, op.baseMin, op.quoteMin) == Ok((base, quote))
    && base + p.base >= t.baseMinimum && quote + p.quote >= t.quoteMinimum
  }

  /**
    `who` pays exactly the amounts taken, the pool gets them, and `to` gets exactly the shares minted for them; the
    first deposit locks its minimum on top.
   */
  ghost predicate DepositMade(f: Funds, f': Funds, who: AccountId, to: AccountId, base: nat, quote: nat, minted: nat) {
    && Paid(f.ledger, f'.ledger, who, base, quote, who, 0, 0)
    && SharesMoved(f.shares, f'.shares, to, minted)
    && f'.pool.base == f.pool.base + base && f'.pool.quote == f.pool.quote + quote
    && f'.pool.supply == f.pool.supply + minted + (if f.pool.supply == 0 then MINT_MIN_LIQUIDITY else 0)
  }

  /** A deposit goes through exactly when its amounts are allowed, free and mint shares. */
  lemma DepositEffect(c: Config, f: Funds, who: AccountId, to: AccountId, op: Op, base: nat, quote: nat)
    requires op.Add?
    ensures Takes(c.terms, f.pool, op, base, quote) ==>
      && (AddCall(c, f, who, to, op).Ok?
          <==> && Free(f.ledger, who, BaseAsset) >= base && Free(f.ledger, who, QuoteAsset) >= quote
               && MintedFor(f.pool, base, quote).Ok?)
      && (AddCall(c, f, who, to, op).Ok? ==>
          DepositMade(f, AddCall(c, f, who, to, op).value, who, to, base, quote, MintedFor(f.pool, base, quote).value))
    ensures AddCall(c, f, who, to, op).Ok? ==> exists b, q :: Takes(c.terms, f.pool, op, b, q)
  {
    hide DepositAmounts, MintedFor, Withdraw, Free, Paid;
    var amounts := DepositAmounts(f.pool, op.baseDesired, op.quoteDesired, op.baseMin, op.quoteMin);
    if amounts.Ok? {
      var (b, q) := amounts.value;
      PairPays(f.ledger, who, b, q);
      if AddCall(c, f, who, to, op).Ok? {
        assert Takes(c.terms, f.pool, op, b, q);
      }
    }
  }

  // ---------- withdrawals ----------

  /**
    `who` burns exactly `burn` shares and `to` gets the redeemed part of each reserve, rounded down; nobody else is
    touched.
   */
  lemma WithdrawalEffect(c: Config, f: Funds, who: AccountId, to: AccountId, op: Op)
    requires op.Remove?
    ensures var w := RemoveLiquidity(c.terms, f.pool, op.burn, op.withdrawalFee, op.baseMin, op.quoteMin);
      && (RemoveCall(c, f, who, to, op).Ok? <==> w.Ok? && op.burn <= SharesOf(f.shares, who))
      && (RemoveCall(c, f, who, to, op).Ok? ==>
            var f', redeem := RemoveCall(c, f, who, to, op).value, Redeemable(op.burn, op.withdrawalFee);
            && f.pool.supply > 0
            && var base, quote := redeem * f.pool.base / f.pool.supply, redeem * f.pool.quote / f.pool.supply;
            && base >= 0 && quote >= 0
            && Paid(f.ledger, f'.ledger, to, 0, 0, to, base, quote)
            && SharesMoved(f.shares, f'.shares, who, 0 - op.burn)
            && f'.pool.base == f.pool.base - base && f'.pool.quote == f.pool.quote - quote
            && f'.pool.supply == f.pool.supply - op.burn)
  {
    WithdrawalPays(c.terms, f.pool, op.burn, op.withdrawalFee, op.baseMin, op.quoteMin);
    var w := RemoveLiquidity(c.terms, f.pool, op.burn, op.withdrawalFee, op.baseMin, op.quoteMin);
    if w.Ok? {
      assert w.value.pool == Pool(f.pool.base - w.value.base, f.pool.quote - w.value.quote, f.pool.supply - op.burn);
      PairGets(f.ledger, to, w.value.base, w.value.quote);
    }
    hide RemoveLiquidity, Redeemable, Credit, Paid;
  }

  // ---------- swaps ----------

  /** The two reserves and the minimum of the outgoing one, from the paying side. */
  ghost function ReserveIn(p: Pool, paying: Paying): nat {
    if paying == Base then p.base else p.quote
  }

  ghost function ReserveOut(p: Pool, paying: Paying): nat {
    if paying == Base then p.quote else p.base
  }

  ghost function MinimumOut(t: Terms, paying: Paying): nat {
    if paying == Base then t.quoteMinimum else t.baseMinimum
  }

  ghost function AssetIn(paying: Paying): Asset {
    if paying == Base then BaseAsset else QuoteAsset
  }

  /** `who` pays `paid` into the pool and `to` gets `got` out of it; shares stay. */
  ghost predicate Swapped(f: Funds, f': Funds, who: AccountId, to: AccountId, paying: Paying, paid: nat, got: nat) {
    && (if paying == Base then Paid(f.ledger, f'.ledger, who, paid, 0, to, 0, got)
        else Paid(f.ledger, f'.ledger, who, 0, paid, to, got, 0))
    && ReserveIn(f'.pool, paying) == ReserveIn(f.pool, paying) + paid
    && ReserveOut(f'.pool, paying) == ReserveOut(f.pool, paying) - got
    && f'.pool.supply == f.pool.supply && f'.shares == f.shares
  }

  lemma PayFlows(isBid: bool, l: Ledger, who: AccountId, to: AccountId, s: Swap, a: Asset)
    requires PaySwap(isBid, l, who, to, s).Ok?
    ensures var amount := if a == BaseAsset then s.base else s.quote;
      Flows(l, PaySwap(isBid, l, who, to, s).value, a, who, if a == FrozenAsset(!isBid) then amount else 0,
            to, if a == FrozenAsset(isBid) then amount else 0)
  {
    hide PaySwap, BalanceOf;
    var after, amount := PaySwap(isBid, l, who, to, s).value, if a == BaseAsset then s.base else s.quote;
    forall x ensures BalanceOf(after, x, a) == BalanceOf(l, x, a)
      + (if x == to && a == FrozenAsset(isBid) then amount else 0)
      - (if x == who && a == FrozenAsset(!isBid) then amount else 0)
    {
      PayMoves(isBid, l, who, to, s, x, a);
    }
  }

  lemma PaidBySwap(l: Ledger, who: AccountId, to: AccountId, paying: Paying, paid: nat, got: nat)
    ensures var s := if paying == Base then Swap(paid, got) else Swap(got, paid);
      var after := PaySwap(paying == Quoted, l, who, to, s);
      && (after.Ok? <==> Free(l, who, AssetIn(paying)) >= paid)
      && (after.Ok? ==>
          if paying == Base then Paid(l, after.value, who, paid, 0, to, 0, got)
          else Paid(l, after.value, who, 0, paid, to, got, 0))
  {
    var isBid, s := paying == Quoted, if paying == Base then Swap(paid, got) else Swap(got, paid);
    PaysIff(isBid, l, who, to, s);
    var after := PaySwap(isBid, l, who, to, s);
    if after.Ok? {
      forall x, a ensures FrozenOf(after.value, x, a) == FrozenOf(l, x, a) {
        PayKeepsFrozen(isBid, l, who, to, s, x, a);
      }
      PayFlows(isBid, l, who, to, s, BaseAsset);
      PayFlows(isBid, l, who, to, s, QuoteAsset);
    }
    hide PaySwap, Flows, FrozenOf, Free;
  }

  /** A sale of exactly `x`: when it goes through, and what it moves, at the pool's rate. */
  lemma SaleEffect(c: Config, f: Funds, who: AccountId, to: AccountId, paying: Paying, x: nat)
    ensures var reserveIn, reserveOut := ReserveIn(f.pool, paying), ReserveOut(f.pool, paying);
      var sold := SwapCall(c, f, who, to, ExactIn(paying, x));
      && (sold.Ok?
          <==> && x > 0 && GetAmountOut(x, reserveIn, reserveOut, c.terms.fee).Ok?
               && reserveOut >= OutOf(x, reserveIn, reserveOut, c.terms.fee) + MinimumOut(c.terms, paying)
               && Free(f.ledger, who, AssetIn(paying)) >= x)
      && (sold.Ok? ==>
          reserveIn > 0 && Swapped(f, sold.value, who, to, paying, x, OutOf(x, reserveIn, reserveOut, c.terms.fee)))
  {
    var reserveIn, reserveOut := ReserveIn(f.pool, paying), ReserveOut(f.pool, paying);
    var out := GetAmountOut(x, reserveIn, reserveOut, c.terms.fee);
    if out.Ok? {
      PaidBySwap(f.ledger, who, to, paying, x, out.value);
    }
    hide GetAmountOut, OutOf, PaySwap, Paid, Free;
  }

  /** A purchase of exactly `y`. */
  lemma PurchaseEffect(c: Config, f: Funds, who: AccountId, to: AccountId, paying: Paying, y: nat)
    ensures var reserveIn, reserveOut := ReserveIn(f.pool, paying), ReserveOut(f.pool, paying);
      var bought := SwapCall(c, f, who, to, ExactOut(paying, y));
      && (bought.Ok?
          <==> && y > 0 && GetAmountIn(y, reserveIn, reserveOut, c.terms.fee).Ok?
               && reserveOut >= y + MinimumOut(c.terms, paying)
               && Free(f.ledger, who, AssetIn(paying)) >= InFor(y, reserveIn, reserveOut, c.terms.fee))
      && (bought.Ok? ==>
          y < reserveOut && Swapped(f, bought.value, who, to, paying, InFor(y, reserveIn, reserveOut, c.terms.fee), y))
  {
    var reserveIn, reserveOut := ReserveIn(f.pool, paying), ReserveOut(f.pool, paying);
    var paid := GetAmountIn(y, reserveIn, reserveOut, c.terms.fee);
    if paid.Ok? {
      PaidBySwap(f.ledger, who, to, paying, paid.value, y);
    }
    hide GetAmountIn, InFor, PaySwap, Paid, Free;
  }

  // ---------- transfers to the pool ----------

  lemma DonationEffect(f: Funds, who: AccountId, base: nat, quote: nat)
    ensures var given := DonateCall(f, who, base, quote);
      && (given.Ok? <==> Free(f.ledger, who, BaseAsset) >= base && Free(f.ledger, who, QuoteAsset) >= quote)
      && (given.Ok? ==>
          && Paid(f.ledger, given.value.ledger, who, base, quote, who, 0, 0) && given.value.shares == f.shares
          && given.value.pool.base == f.pool.base + base && given.value.pool.quote == f.pool.quote + quote
          && given.value.pool.supply == f.pool.supply)
  {
    PairPays(f.ledger, who, base, quote);
    hide Withdraw, Free, Paid;
  }

  /** A liquidity call leaves books and counters alone. */
  lemma CallKeepsBooks(c: Config, m: Market, who: AccountId, to: AccountId, op: Op)
    ensures var made := LiquidityCall(c, m, who, to, op);
      && (made.Ok? <==> FundsCall(c, FundsOf(m), who, to, op).Ok?)
      && (made.Ok? ==>
          && FundsOf(made.value) == FundsCall(c, FundsOf(m), who, to, op).value
          && made.value.bids == m.bids && made.value.asks == m.asks
          && made.value.nextBid == m.nextBid && made.value.nextAsk == m.nextAsk)
  {
    hide FundsCall;
  }
}

/**
  The pool legs of a match: how they are priced, exactly which of them are fair at a price, and tests before the call
  under which all of them are.
 */
module Legs {
  import opened Amm
  import opened Arithmetic
  import opened Bits
  import opened Costs
  import opened Liquidity
  import opened Matching
  import opened OrderBook
  import opened SwapSearch

  // ---------- the pool legs of a match ----------

  ghost function QuoteSum(swaps: seq<Swap>): nat {
    if swaps == [] then 0 else swaps[0].quote + QuoteSum(swaps[1..])
  }

  /** The reserves before leg `i` of a match that started on `pool`. */
  ghost function BaseBefore(isBid: bool, pool: Pool, swaps: seq<Swap>, i: nat): int
    requires i <= |swaps|
  {
    if isBid then pool.base - SwapSum(swaps[..i]) else pool.base + SwapSum(swaps[..i])
  }

  ghost function QuoteBefore(isBid: bool, pool: Pool, swaps: seq<Swap>, i: nat): int
    requires i <= |swaps|
  {
    if isBid then pool.quote + QuoteSum(swaps[..i]) else pool.quote - QuoteSum(swaps[..i])
  }

  /** A leg at the pool's own quote for these reserves. */
  ghost predicate LegPriced(isBid: bool, fee: Fee, base: int, quote: int, leg: Swap) {
    && base > 0 && quote > 0 && leg.base > 0
    && (if isBid then leg.base < base && leg.quote == InFor(leg.base, quote, base, fee)
        else leg.quote == OutOf(leg.base, base, quote, fee))
  }

  ghost predicate LegsPriced(isBid: bool, fee: Fee, pool: Pool, swaps: seq<Swap>) {
    forall i | 0 <= i < |swaps| ::
      LegPriced(isBid, fee, BaseBefore(isBid, pool, swaps, i), QuoteBefore(isBid, pool, swaps, i), swaps[i])
  }

  lemma {:induction false} QuoteSumAppend(s: seq<Swap>, t: seq<Swap>)
    ensures QuoteSum(s + t) == QuoteSum(s) + QuoteSum(t)
  {
    if s == [] {
      assert s + t == t;
    } else {
      assert (s + t)[1..] == s[1..] + t;
      QuoteSumAppend(s[1..], t);
    }
  }

  lemma SumsPush(swaps: seq<Swap>, leg: Swap)
    ensures SwapSum(swaps + [leg]) == SwapSum(swaps) + leg.base
    ensures QuoteSum(swaps + [leg]) == QuoteSum(swaps) + leg.quote
  {
    SwapSumAppend(swaps, [leg]);
    QuoteSumAppend(swaps, [leg]);
  }

  /** What one pool leg adds to a desk. */
  lemma PoolLegIsPriced(isBid: bool, c: Config, desk: Desk, quantity: nat)
    requires PoolLeg(isBid, c, desk, quantity).Ok?
    ensures var after := PoolLeg(isBid, c, desk, quantity).value;
      && |after.swaps| == |desk.swaps| + 1 && after.swaps[..|desk.swaps|] == desk.swaps
      && var leg := after.swaps[|desk.swaps|];
      && LegPriced(isBid, c.terms.fee, desk.pool.base, desk.pool.quote, leg)
      && after.pool.base == (if isBid then desk.pool.base - leg.base else desk.pool.base + leg.base)
      && after.pool.quote == (if isBid then desk.pool.quote + leg.quote else desk.pool.quote - leg.quote)
  {
    hide PaySwap, InFor, OutOf;
  }

  /** The legs recorded so far are priced, and they account for the reserves. */
  ghost predicate Accounted(isBid: bool, fee: Fee, pool: Pool, desk: Desk) {
    && LegsPriced(isBid, fee, pool, desk.swaps)
    && desk.pool.base == BaseBefore(isBid, pool, desk.swaps, |desk.swaps|)
    && desk.pool.quote == QuoteBefore(isBid, pool, desk.swaps, |desk.swaps|)
  }

  /** What comes before a leg depends only on the legs before it. */
  lemma BeforeSame(isBid: bool, pool: Pool, s: seq<Swap>, t: seq<Swap>, i: nat)
    requires i <= |s| && i <= |t| && s[..i] == t[..i]
    ensures BaseBefore(isBid, pool, s, i) == BaseBefore(isBid, pool, t, i)
    ensures QuoteBefore(isBid, pool, s, i) == QuoteBefore(isBid, pool, t, i)
  {
  }

  lemma BeforeNext(isBid: bool, pool: Pool, swaps: seq<Swap>, i: nat)
    requires i < |swaps|
    ensures var base, quote := BaseBefore(isBid, pool, swaps, i), QuoteBefore(isBid, pool, swaps, i);
      && BaseBefore(isBid, pool, swaps, i + 1) == (if isBid then base - swaps[i].base else base + swaps[i].base)
      && QuoteBefore(isBid, pool, swaps, i + 1) == (if isBid then quote + swaps[i].quote else quote - swaps[i].quote)
  {
    SumsGrow(swaps, i);
    hide SwapSum, QuoteSum;
  }

  lemma PoolLegKeepsAccount(isBid: bool, c: Config, pool: Pool, desk: Desk, quantity: nat)
    requires Accounted(isBid, c.terms.fee, pool, desk) && PoolLeg(isBid, c, desk, quantity).Ok?
    ensures Accounted(isBid, c.terms.fee, pool, PoolLeg(isBid, c, desk, quantity).value)
  {
    hide PoolLeg, LegPriced, BaseBefore, QuoteBefore;
    PoolLegIsPriced(isBid, c, desk, quantity);
    var after := PoolLeg(isBid, c, desk, quantity).value;
    var n := |desk.swaps|;
    forall i | 0 <= i < n + 1
      ensures LegPriced(isBid, c.terms.fee, BaseBefore(isBid, pool, after.swaps, i),
                        QuoteBefore(isBid, pool, after.swaps, i), after.swaps[i])
    {
      assert after.swaps[..i] == desk.swaps[..i];
      BeforeSame(isBid, pool, after.swaps, desk.swaps, i);
      if i < n {
        assert after.swaps[i] == desk.swaps[i];
      }
    }
    assert after.swaps[..n] == desk.swaps[..n];
    BeforeSame(isBid, pool, after.swaps, desk.swaps, n);
    BeforeNext(isBid, pool, after.swaps, n);
  }

  /** Every pool leg of a match is made at the pool's quote for the reserves that the legs before it left. */
  lemma MatchLegsPriced(isBid: bool, c: Config, desk: Desk, remain: nat)
    requires desk.swaps == []
    ensures MatchFrom(isBid, c, desk, remain).Ok? ==>
      Accounted(isBid, c.terms.fee, desk.pool, MatchFrom(isBid, c, desk, remain).value)
  {
    var kept := (d: Desk) => Accounted(isBid, c.terms.fee, desk.pool, d);
    assert kept(desk);
    hide PoolLeg, MatchFrom, Accounted;
    forall d: Desk, q: nat | kept(d) && PoolLeg(isBid, c, d, q).Ok? ensures kept(PoolLeg(isBid, c, d, q).value) {
      PoolLegKeepsAccount(isBid, c, desk.pool, d, q);
    }
    forall d: Desk, p: Index, q: nat | kept(d) && p in d.book.levels && q > 0 ensures kept(BookLeg(d, p, q)) {
      BookLegKeepsAccount(isBid, c.terms.fee, desk.pool, d, p, q);
    }
    MatchKeeps(isBid, c, desk, remain, kept);
  }

  lemma BookLegKeepsAccount(isBid: bool, fee: Fee, pool: Pool, desk: Desk, p: Index, q: nat)
    requires Accounted(isBid, fee, pool, desk)
    ensures Accounted(isBid, fee, pool, BookLeg(desk, p, q))
  {
    hide FillIn, AtPrice, BookFills;
  }

  /** A leg that costs the buyer no more than `price`, or brings the seller no less. */
  ghost predicate FairLeg(isBid: bool, d: Decimals, price: nat, leg: Swap) {
    if isBid then CostsWithin(d, price, leg.base, leg.quote) else BringsAtLeast(d, price, leg.base, leg.quote)
  }

  /** The test for that, on the reserves before the leg. */
  ghost predicate LegPasses(isBid: bool, d: Decimals, fee: Fee, base: int, quote: int, price: nat, leg: Swap)
    requires 0 < base && 0 < quote && (isBid ==> leg.base < base)
  {
    if isBid then Affordable(d, fee, base, quote, price, leg.base) else Rewarding(d, fee, base, quote, price, leg.base)
  }

  /** Exactly which pool legs of a match are fair at a price: those that pass the test on the reserves before them. */
  lemma FairLegIff(isBid: bool, c: Config, desk: Desk, remain: nat, price: nat, i: nat)
    requires desk.swaps == [] && MatchFrom(isBid, c, desk, remain).Ok?
    requires i < |MatchFrom(isBid, c, desk, remain).value.swaps|
    ensures var swaps := MatchFrom(isBid, c, desk, remain).value.swaps;
      var base, quote := BaseBefore(isBid, desk.pool, swaps, i), QuoteBefore(isBid, desk.pool, swaps, i);
      && 0 < base && 0 < quote && (isBid ==> swaps[i].base < base)
      && (FairLeg(isBid, c.decimals, price, swaps[i])
          <==> LegPasses(isBid, c.decimals, c.terms.fee, base, quote, price, swaps[i]))
  {
    hide MatchFrom, CostsWithin, BringsAtLeast, Affordable, Rewarding, InFor, OutOf, BaseBefore, QuoteBefore;
    MatchLegsPriced(isBid, c, desk, remain);
    var swaps := MatchFrom(isBid, c, desk, remain).value.swaps;
    var base, quote := BaseBefore(isBid, desk.pool, swaps, i), QuoteBefore(isBid, desk.pool, swaps, i);
    assert LegPriced(isBid, c.terms.fee, base, quote, swaps[i]);
    if isBid {
      PurchaseCostIff(c.decimals, c.terms.fee, base, quote, price, swaps[i].base);
    } else {
      SaleBringsIff(c.decimals, c.terms.fee, base, quote, price, swaps[i].base);
    }
  }

  ghost predicate AllFair(isBid: bool, d: Decimals, price: nat, swaps: seq<Swap>) {
    forall i | 0 <= i < |swaps| :: FairLeg(isBid, d, price, swaps[i])
  }

  lemma {:induction false} SumsGrow(swaps: seq<Swap>, i: nat)
    requires i < |swaps|
    ensures SwapSum(swaps[..i + 1]) == SwapSum(swaps[..i]) + swaps[i].base <= SwapSum(swaps)
    ensures QuoteSum(swaps[..i + 1]) == QuoteSum(swaps[..i]) + swaps[i].quote
  {
    assert swaps[..i + 1] == swaps[..i] + [swaps[i]];
    SumsPush(swaps[..i], swaps[i]);
    assert swaps == swaps[..i + 1] + swaps[i + 1..];
    SwapSumAppend(swaps[..i + 1], swaps[i + 1..]);
  }

  /**
    A test before a buying match: with `rate` quote units a base unit, the order stays cheap up to its whole quantity
    even on reserves that already took all its payments at that rate.
   */
  predicate CheapOrder(fee: Fee, pool: Pool, rate: nat, quantity: nat) {
    CheapUpTo(fee, pool.base, pool.quote + quantity * rate, rate, quantity)
  }

  lemma {:induction false} LegsAreCheap(fee: Fee, pool: Pool, swaps: seq<Swap>, rate: nat, quantity: nat, i: nat)
    requires LegsPriced(true, fee, pool, swaps) && SwapSum(swaps) <= quantity && i <= |swaps|
    requires CheapOrder(fee, pool, rate, quantity)
    ensures QuoteBefore(true, pool, swaps, i) <= pool.quote + SwapSum(swaps[..i]) * rate
    ensures forall j | 0 <= j < i :: swaps[j].quote <= swaps[j].base * rate
  {
    if i > 0 {
      LegsAreCheap(fee, pool, swaps, rate, quantity, i - 1);
      SumsGrow(swaps, i - 1);
      BeforeNext(true, pool, swaps, i - 1);
      var leg, before := swaps[i - 1], SwapSum(swaps[..i - 1]);
      var base, quote := BaseBefore(true, pool, swaps, i - 1), QuoteBefore(true, pool, swaps, i - 1);
      assert LegPriced(true, fee, base, quote, leg) && base == pool.base - before;
      hide InFor, LegsPriced, SwapSum, QuoteSum, BaseBefore, QuoteBefore, CheapUpTo;
      SumOfProducts(before, leg.base, rate);
      MulMono(before, quantity, rate);
      assert CheapUpTo(fee, pool.base, pool.quote + quantity * rate, rate, quantity) && quantity < pool.base by {
        CheapLeavesBase(fee, pool.base, pool.quote + quantity * rate, rate, quantity);
      }
      CheapOnLess(fee, pool.base, pool.quote + quantity * rate, base, quote, rate, quantity, leg.base);
      PurchaseAtRate(fee, base, quote, rate, leg.base);
    } else {
      assert swaps[..0] == [];
    }
  }

  lemma CheapLeavesBase(fee: Fee, base: nat, quote: nat, rate: nat, t: nat)
    requires CheapUpTo(fee, base, quote, rate, t)
    ensures t < base
  {
  }

  /** Cheap stays cheap with less quote, when as much base is left after the purchase. */
  lemma CheapOnLess(fee: Fee, base: nat, quote: nat, base': nat, quote': nat, rate: nat, t: nat, s: nat)
    requires CheapUpTo(fee, base, quote, rate, t) && quote' <= quote && s < base' && base - t <= base' - s
    ensures CheapUpTo(fee, base', quote', rate, s)
  {
    MulMono(base - t, base' - s, 1000 - fee);
    MulMono(Room(t, base, fee), Room(s, base', fee), rate);
  }

  /** Every pool leg of a buying match that passes the test before the call costs within the price. */
  lemma CheapOrderLegs(c: Config, desk: Desk, quantity: nat, price: nat)
    requires desk.swaps == [] && desk.trades == []
    requires CheapOrder(c.terms.fee, desk.pool, RateDown(c.decimals, price), quantity)
    ensures MatchFrom(true, c, desk, quantity).Ok? ==>
      AllFair(true, c.decimals, price, MatchFrom(true, c, desk, quantity).value.swaps)
  {
    hide MatchFrom, CostsWithin, RateDown, CheapOrder, LegsPriced, BaseBefore, QuoteBefore;
    if MatchFrom(true, c, desk, quantity).Ok? {
      var swaps, rate := MatchFrom(true, c, desk, quantity).value.swaps, RateDown(c.decimals, price);
      MatchLegsPriced(true, c, desk, quantity);
      MatchFillsOrder(true, c, desk, quantity);
      assert SwapSum([]) == 0 && TradeSum([]) == 0;
      LegsAreCheap(c.terms.fee, desk.pool, swaps, rate, quantity, |swaps|);
      forall i | 0 <= i < |swaps| ensures FairLeg(true, c.decimals, price, swaps[i]) {
        RatesBracket(c.decimals, price, swaps[i].base, swaps[i].quote);
      }
    }
  }

  /** A test before a selling match, on the product of the reserves. */
  predicate DearOrder(fee: Fee, pool: Pool, rate: nat, quantity: nat) {
    (1000 - fee) * (pool.base * pool.quote) >= rate * ((pool.base + quantity) * (pool.base + quantity) * 1000)
  }

  lemma {:induction false} LegsAreDear(fee: Fee, pool: Pool, swaps: seq<Swap>, rate: nat, quantity: nat, i: nat)
    requires LegsPriced(false, fee, pool, swaps) && SwapSum(swaps) <= quantity && i <= |swaps|
    requires DearOrder(fee, pool, rate, quantity)
    ensures BaseBefore(false, pool, swaps, i) * QuoteBefore(false, pool, swaps, i) >= pool.base * pool.quote
    ensures forall j | 0 <= j < i :: swaps[j].quote >= swaps[j].base * rate
  {
    if i > 0 {
      LegsAreDear(fee, pool, swaps, rate, quantity, i - 1);
      SumsGrow(swaps, i - 1);
      var leg := swaps[i - 1];
      var base, quote := BaseBefore(false, pool, swaps, i - 1), QuoteBefore(false, pool, swaps, i - 1);
      assert LegPriced(false, fee, base, quote, leg);
      hide OutOf, LegsPriced, SwapSum, QuoteSum, DearOrder;
      SaleKeepsProduct(leg.base, base, quote, fee);
      DearOnMore(fee, pool, base, quote, rate, quantity, leg.base);
      SaleAtRate(fee, base, quote, rate, leg.base);
    } else {
      assert swaps[..0] == [];
    }
  }

  lemma DearOnMore(fee: Fee, pool: Pool, base: nat, quote: nat, rate: nat, quantity: nat, s: nat)
    requires DearOrder(fee, pool, rate, quantity) && base > 0
    requires base * quote >= pool.base * pool.quote && base + s <= pool.base + quantity
    ensures DearUpTo(fee, base, quote, rate, s)
  {
    DearNumbers(1000 - fee, pool.base * pool.quote, base, quote, rate, pool.base + quantity, s);
  }

  lemma DearNumbers(f: nat, product: nat, base: nat, quote: nat, rate: nat, top: nat, s: nat)
    requires f <= 1000 && base > 0 && base * quote >= product && base + s <= top
    requires f * product >= rate * (top * top * 1000)
    ensures f * quote >= rate * (base * 1000 + s * f)
  {
    var all := base * 1000 + s * f;
    assert all <= top * 1000 by {
      MulMono(f, 1000, s);
    }
    SquareBound(base, all, top);
    DearChain(f, product, base * quote, rate, top * top * 1000, base * all);
    CancelDear(f, base, quote, rate, all);
  }

  lemma DearChain(f: nat, k: nat, k': nat, rate: nat, t: nat, t': nat)
    requires f * k >= rate * t && k' >= k && t' <= t
    ensures f * k' >= rate * t'
  {
    MulMono(k, k', f);
    MulMono(t', t, rate);
  }

  lemma SquareBound(base: nat, all: nat, top: nat)
    requires base <= top && all <= top * 1000
    ensures base * all <= top * top * 1000
  {
    MulMono(all, top * 1000, base);
    MulMono(base, top, top * 1000);
    MulAssoc(top, top, 1000);
  }

  lemma CancelDear(f: nat, base: nat, quote: nat, rate: nat, all: nat)
    requires base > 0 && f * (base * quote) >= rate * (base * all)
    ensures f * quote >= rate * all
  {
    MulAssoc(base, f, quote);
    MulAssoc(f, base, quote);
    MulAssoc(base, rate, all);
    MulAssoc(rate, base, all);
    CancelLess(f * quote, rate * all, base);
  }

  /** Every pool leg of a selling match that passes the test before the call brings the price. */
  lemma DearOrderLegs(c: Config, desk: Desk, quantity: nat, price: nat)
    requires desk.swaps == [] && desk.trades == []
    requires DearOrder(c.terms.fee, desk.pool, RateUp(c.decimals, price), quantity)
    ensures MatchFrom(false, c, desk, quantity).Ok? ==>
      AllFair(false, c.decimals, price, MatchFrom(false, c, desk, quantity).value.swaps)
  {
    hide MatchFrom, BringsAtLeast, RateUp, DearOrder, LegsPriced, BaseBefore, QuoteBefore;
    if MatchFrom(false, c, desk, quantity).Ok? {
      var swaps, rate := MatchFrom(false, c, desk, quantity).value.swaps, RateUp(c.decimals, price);
      MatchLegsPriced(false, c, desk, quantity);
      MatchFillsOrder(false, c, desk, quantity);
      assert SwapSum([]) == 0 && TradeSum([]) == 0;
      LegsAreDear(c.terms.fee, desk.pool, swaps, rate, quantity, |swaps|);
      forall i | 0 <= i < |swaps| ensures FairLeg(false, c.decimals, price, swaps[i]) {
        RatesBracket(c.decimals, price, swaps[i].base, swaps[i].quote);
      }
    }
  }
}

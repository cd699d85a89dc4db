/**
  What pool legs cost and bring, against a price of the book.

  The search judges a leg by the pool price after it, rounded down. What a buyer pays or a seller gets for the leg is
  another matter: it has the fee and the rounding of the swap in it. Here are exact tests for it, on the reserves and
  the quantity alone, and what they say of the legs that searches and matches choose.
 */
module Costs {
  import opened Amm
  import opened Arithmetic
  import opened Freezes
  import opened SwapSearch
  import opened Wrappers

  /** `price` times `BaseScale` over `PriceScale` is the rate of quote units for one base unit. */
  function PriceScale(d: Decimals): (r: nat)
    ensures r > 0
  {
    MulSign(Pow10(d.pool), Pow10(QuoteAdjustment(d)));
    Pow10(d.pool) * Pow10(QuoteAdjustment(d))
  }

  function BaseScale(d: Decimals): (r: nat)
    ensures r > 0
  {
    Pow10(BaseAdjustment(d))
  }

  /** Paying `paid` for `s` of the base asset is no dearer than `price`. */
  ghost predicate CostsWithin(d: Decimals, price: nat, s: nat, paid: nat) {
    paid * PriceScale(d) <= s * (price * BaseScale(d))
  }

  /** Getting `got` for `s` of the base asset is no cheaper than `price`. */
  ghost predicate BringsAtLeast(d: Decimals, price: nat, s: nat, got: nat) {
    got * PriceScale(d) >= s * (price * BaseScale(d))
  }

  /** Both are about the pool's own notion of price, without its rounding. */
  lemma PriceOfDeal(d: Decimals, price: nat, s: nat, amount: nat)
    requires s > 0
    ensures BringsAtLeast(d, price, s, amount) <==> PriceOf(d, s, amount) >= price
    ensures CostsWithin(d, price, s, amount) ==> PriceOf(d, s, amount) <= price
    ensures PriceOf(d, s, amount) < price ==> CostsWithin(d, price, s, amount)
  {
    var p, b, q := Pow10(d.pool), Pow10(BaseAdjustment(d)), Pow10(QuoteAdjustment(d));
    MulSign(s, b);
    DivReaches(p * (amount * q), s * b, price);
    DivReaches(p * (amount * q), s * b, price + 1);
    assert p * (amount * q) == amount * (p * q) by {
      MulAssoc(p, amount, q);
      MulAssoc(amount, p, q);
    }
    assert (s * b) * price == s * (price * b) by {
      MulAssoc(s, b, price);
    }
    SumOfProducts(price, 1, s * b);
  }

  // ---------- one purchase, one sale ----------

  /** Buying `s` from these reserves costs no more than `price`. */
  ghost predicate BuysWithin(d: Decimals, fee: Fee, base: nat, quote: nat, price: nat, s: nat)
    requires s < base
  {
    CostsWithin(d, price, s, InFor(s, quote, base, fee))
  }

  /** Selling `s` to these reserves brings no less than `price`. */
  ghost predicate SellsFor(d: Decimals, fee: Fee, base: nat, quote: nat, price: nat, s: nat)
    requires base > 0
  {
    BringsAtLeast(d, price, s, OutOf(s, base, quote, fee))
  }

  /** The largest payment for `s` within `price`. */
  function Worth(d: Decimals, price: nat, s: nat): nat {
    DivPositive(s * (price * BaseScale(d)), PriceScale(d));
    s * (price * BaseScale(d)) / PriceScale(d)
  }

  /** The least payment for `s` that is at least `price`. */
  function WorthUp(d: Decimals, price: nat, s: nat): nat {
    DivPositive(s * (price * BaseScale(d)) + PriceScale(d) - 1, PriceScale(d));
    (s * (price * BaseScale(d)) + PriceScale(d) - 1) / PriceScale(d)
  }

  lemma WorthIsLargest(d: Decimals, price: nat, s: nat, amount: nat)
    ensures CostsWithin(d, price, s, amount) <==> amount <= Worth(d, price, s)
    ensures BringsAtLeast(d, price, s, amount) <==> amount >= WorthUp(d, price, s)
  {
    var x, y := s * (price * BaseScale(d)), PriceScale(d);
    DivReaches(x, y, amount);
    DivReaches(x + y - 1, y, amount + 1);
    SumOfProducts(amount, 1, y);
  }

  /** Buying `s` from these reserves passes the test for `price`. */
  predicate Affordable(d: Decimals, fee: Fee, base: nat, quote: nat, price: nat, s: nat)
    requires s < base
  {
    Cost(s, quote) < Worth(d, price, s) * Room(s, base, fee)
  }

  /** Selling `s` to these reserves passes the test for `price`. */
  predicate Rewarding(d: Decimals, fee: Fee, base: nat, quote: nat, price: nat, s: nat) {
    s * (1000 - fee) * quote >= (base * 1000 + s * (1000 - fee)) * WorthUp(d, price, s)
  }

  /** Exactly which purchases cost no more than a price. */
  lemma PurchaseCostIff(d: Decimals, fee: Fee, base: nat, quote: nat, price: nat, s: nat)
    requires s < base
    ensures BuysWithin(d, fee, base, quote, price, s) <==> Affordable(d, fee, base, quote, price, s)
  {
    WorthIsLargest(d, price, s, InFor(s, quote, base, fee));
    hide CostsWithin, Worth;
    DivReaches(Cost(s, quote), Room(s, base, fee), Worth(d, price, s));
  }

  /** Exactly which sales bring no less than a price. */
  lemma SaleBringsIff(d: Decimals, fee: Fee, base: nat, quote: nat, price: nat, s: nat)
    requires base > 0
    ensures SellsFor(d, fee, base, quote, price, s) <==> Rewarding(d, fee, base, quote, price, s)
  {
    WorthIsLargest(d, price, s, OutOf(s, base, quote, fee));
    hide BringsAtLeast, WorthUp, OutOf;
    OutReaches(s, base, quote, fee, WorthUp(d, price, s));
  }

  // ---------- the worth the book uses ----------

  /**
    What the book freezes and pays for a bid is the worth at its price exactly when the base asset has no fewer decimals
    than the quote asset, or the worth is nothing: the scaling of the base side is left out.
   */
  lemma NeedIsWorthIff(d: Decimals, price: nat, quantity: nat)
    ensures Need(false, d, price, quantity) == Worth(d, price, quantity)
       <==> d.base >= d.quote || quantity * (price * BaseScale(d)) < PriceScale(d)
  {
    TenPowersMultiply(d.pool, QuoteAdjustment(d));
    var b, scale := BaseScale(d), PriceScale(d);
    assert Pow10(WorthScale(d)) == scale;
    assert b == 1 <==> d.base >= d.quote by {
      if d.base < d.quote {
        assert b == 10 * Pow10(BaseAdjustment(d) - 1);
      }
    }
    MulAssoc(quantity, price, b);
    hide Pow10;
    if b > 1 {
      TimesFloor(price * quantity, b, scale);
    }
  }

  lemma TimesFloor(x: nat, k: nat, s: nat)
    requires k >= 2 && s > 0
    ensures x / s == x * k / s <==> x * k < s
  {
    DivBounds(x, s);
    DivBounds(x * k, s);
    DivPositive(x, s);
    FloorTimes(x, k, s, x / s, x * k / s);
  }

  lemma FloorTimes(x: nat, k: nat, s: nat, n: nat, m: int)
    requires k >= 2 && s > 0 && n * s <= x && m * s <= x * k < (m + 1) * s
    ensures n == m <==> x * k < s
  {
    TimesReaches(x, k, s, n);
    FloorReaches(x * k, s, n * k, m);
    FloorReaches(x * k, s, 1, m);
    FloorReaches(x * k, s, 0, m);
    MulMono(2, k, n);
  }

  lemma TimesReaches(x: nat, k: nat, s: nat, n: nat)
    requires n * s <= x
    ensures x * k >= s * (n * k)
  {
    MulMono(n * s, x, k);
    MulAssoc(s, n, k);
  }

  /** A pool of 10 against 1000, at price 10: its ratio is 100, but the book takes the price for 10. */
  lemma WorthIsTenfold()
    ensures var d := Decimals(0, 0, 1);
      PriceOf(d, 10, 1000) == 10 && Worth(d, 10, 1) == 100 && Need(false, d, 10, 1) == 10
  {
    var d := Decimals(0, 0, 1);
    assert Pow10(1) == 10 && Pow10(0) == 1;
    assert BaseScale(d) == 10 && PriceScale(d) == 1;
    assert PriceOf(d, 10, 1000) == 10 by {
      assert 1 * (1000 * 1) / (10 * 10) == 10;
    }
  }

  // ---------- tests without the quantity's worth ----------

  /** The rate of `price`, rounded down and up to whole quote units for one base unit. */
  function RateDown(d: Decimals, price: nat): nat {
    Worth(d, price, 1)
  }

  function RateUp(d: Decimals, price: nat): nat {
    WorthUp(d, price, 1)
  }

  /** A payment at the rate rounded down is within the price, one within the price is at most at the rate rounded up. */
  lemma RatesBracket(d: Decimals, price: nat, s: nat, amount: nat)
    ensures amount <= s * RateDown(d, price) ==> CostsWithin(d, price, s, amount)
    ensures CostsWithin(d, price, s, amount) ==> amount <= s * RateUp(d, price)
    ensures amount >= s * RateUp(d, price) ==> BringsAtLeast(d, price, s, amount)
    ensures BringsAtLeast(d, price, s, amount) ==> amount >= s * RateDown(d, price)
  {
    var rate, scale, down, up := price * BaseScale(d), PriceScale(d), RateDown(d, price), RateUp(d, price);
    WorthIsLargest(d, price, 1, down);
    WorthIsLargest(d, price, 1, up);
    Scaled(s, down, up, scale, rate, amount);
  }

  lemma Scaled(s: nat, down: nat, up: nat, scale: nat, rate: nat, amount: nat)
    requires scale > 0 && down * scale <= rate <= up * scale
    ensures amount <= s * down ==> amount * scale <= s * rate
    ensures amount * scale <= s * rate ==> amount <= s * up
    ensures amount >= s * up ==> amount * scale >= s * rate
    ensures amount * scale >= s * rate ==> amount >= s * down
  {
    MulMono(down * scale, rate, s);
    MulMono(rate, up * scale, s);
    MulAssoc(s, down, scale);
    MulAssoc(s, up, scale);
    if amount <= s * down {
      MulMono(amount, s * down, scale);
    } else {
      MulMono(s * down, amount, scale);
    }
    if amount >= s * up {
      MulMono(s * up, amount, scale);
    }
    if amount * scale <= s * rate {
      MulCancel(amount, s * up, scale);
    }
    if amount * scale >= s * rate {
      MulCancel(s * down, amount, scale);
    }
  }

  /** The test for a purchase of up to `t` at a whole rate. */
  predicate CheapUpTo(fee: Fee, base: nat, quote: nat, rate: nat, t: nat) {
    t < base && quote * 1000 < rate * Room(t, base, fee)
  }

  /** The test for a sale of up to `t` at a whole rate. */
  predicate DearUpTo(fee: Fee, base: nat, quote: nat, rate: nat, t: nat) {
    (1000 - fee) * quote >= rate * (base * 1000 + t * (1000 - fee))
  }

  /** At a whole rate the quantity cancels: the test on it is the test up to it. */
  lemma PurchaseAtRate(fee: Fee, base: nat, quote: nat, rate: nat, s: nat)
    requires 0 < s < base
    ensures InFor(s, quote, base, fee) <= s * rate <==> CheapUpTo(fee, base, quote, rate, s)
  {
    var room := Room(s, base, fee);
    DivReaches(Cost(s, quote), room, s * rate);
    assert Cost(s, quote) == s * (quote * 1000) by {
      MulAssoc(s, quote, 1000);
    }
    assert room * (s * rate) == s * (rate * room) by {
      MulAssoc(s, rate, room);
    }
    CancelLess(quote * 1000, rate * room, s);
    hide InFor, Room, Cost;
  }

  lemma SaleAtRate(fee: Fee, base: nat, quote: nat, rate: nat, s: nat)
    requires s > 0 && base > 0
    ensures OutOf(s, base, quote, fee) >= s * rate <==> DearUpTo(fee, base, quote, rate, s)
  {
    hide OutOf;
    OutReaches(s, base, quote, fee, s * rate);
    CancelTest(s, 1000 - fee, quote, base * 1000 + s * (1000 - fee), rate);
  }

  lemma CancelTest(s: nat, f: nat, quote: nat, all: nat, rate: nat)
    requires s > 0
    ensures s * f * quote >= all * (s * rate) <==> f * quote >= rate * all
  {
    MulAssoc(s, f, quote);
    assert all * (s * rate) == s * (rate * all) by {
      MulAssoc(s, rate, all);
    }
    CancelLess(f * quote, rate * all, s);
  }

  lemma CancelLess(a: nat, b: nat, s: nat)
    requires s > 0
    ensures s * a < s * b <==> a < b
    ensures s * a >= s * b <==> a >= b
  {
    if a < b {
      MulMono(a + 1, b, s);
      SumOfProducts(a, 1, s);
    } else {
      MulMono(b, a, s);
    }
  }

  /** What is cheap, or dear, up to a quantity is so up to a smaller one. */
  lemma TestsShrink(fee: Fee, base: nat, quote: nat, rate: nat, s: nat, t: nat)
    requires s <= t
    ensures CheapUpTo(fee, base, quote, rate, t) ==> CheapUpTo(fee, base, quote, rate, s)
    ensures DearUpTo(fee, base, quote, rate, t) ==> DearUpTo(fee, base, quote, rate, s)
  {
    if t < base {
      MulMono(base - t, base - s, 1000 - fee);
      MulMono(Room(t, base, fee), Room(s, base, fee), rate);
    }
    MulMono(s, t, 1000 - fee);
    MulMono(base * 1000 + s * (1000 - fee), base * 1000 + t * (1000 - fee), rate);
  }

  // ---------- legs that a search chooses ----------

  /**
    What a buying search returns costs no more than the book price exactly when it passes the test; it always does
    when the order is cheap at the rate rounded down, and never when not even one unit is at the rate rounded up.
   */
  lemma BidLegCost(target: nat, d: Decimals, fee: Fee, base: nat, quote: nat, remain: nat)
    ensures MaxSwap(true, target, d, fee, base, quote, remain).Ok? ==>
      var s := MaxSwap(true, target, d, fee, base, quote, remain).value;
      s > 0 ==>
        && s < base && s <= remain
        && (BuysWithin(d, fee, base, quote, target, s) <==> Affordable(d, fee, base, quote, target, s))
        && (CheapUpTo(fee, base, quote, RateDown(d, target), remain) ==>
            BuysWithin(d, fee, base, quote, target, s))
        && (!CheapUpTo(fee, base, quote, RateUp(d, target), 1) ==>
            !BuysWithin(d, fee, base, quote, target, s))
  {
    hide BidPrice, MaxSwap, BuysWithin, Affordable, CheapUpTo, RateUp, RateDown;
    if MaxSwap(true, target, d, fee, base, quote, remain).Ok? {
      var s := MaxSwap(true, target, d, fee, base, quote, remain).value;
      BidLegStaysBelowTarget(target, d, fee, base, quote, remain);
      if s > 0 {
        PurchaseCostIff(d, fee, base, quote, target, s);
        PurchaseBracket(d, fee, base, quote, target, s, remain);
      }
    }
  }

  lemma PurchaseBracket(d: Decimals, fee: Fee, base: nat, quote: nat, price: nat, s: nat, t: nat)
    requires 0 < s <= t && s < base
    ensures CheapUpTo(fee, base, quote, RateDown(d, price), t) ==> BuysWithin(d, fee, base, quote, price, s)
    ensures !CheapUpTo(fee, base, quote, RateUp(d, price), 1) ==> !BuysWithin(d, fee, base, quote, price, s)
  {
    hide InFor, CostsWithin, CheapUpTo, RateUp, RateDown;
    RatesBracket(d, price, s, InFor(s, quote, base, fee));
    PurchaseAtRate(fee, base, quote, RateDown(d, price), s);
    PurchaseAtRate(fee, base, quote, RateUp(d, price), s);
    TestsShrink(fee, base, quote, RateDown(d, price), s, t);
    TestsShrink(fee, base, quote, RateUp(d, price), 1, s);
  }

  lemma SaleBracket(d: Decimals, fee: Fee, base: nat, quote: nat, price: nat, s: nat, t: nat)
    requires 0 < s <= t && base > 0
    ensures DearUpTo(fee, base, quote, RateUp(d, price), t) ==>
      SellsFor(d, fee, base, quote, price, s)
    ensures !DearUpTo(fee, base, quote, RateDown(d, price), 1) ==>
      !SellsFor(d, fee, base, quote, price, s)
  {
    hide OutOf, BringsAtLeast, DearUpTo, RateUp, RateDown;
    RatesBracket(d, price, s, OutOf(s, base, quote, fee));
    SaleAtRate(fee, base, quote, RateDown(d, price), s);
    SaleAtRate(fee, base, quote, RateUp(d, price), s);
    TestsShrink(fee, base, quote, RateUp(d, price), s, t);
    TestsShrink(fee, base, quote, RateDown(d, price), 1, s);
  }

  /** The same for what a selling search returns. */
  lemma AskLegProceeds(target: nat, d: Decimals, fee: Fee, base: nat, quote: nat, remain: nat)
    requires base > 0 && quote > 0
    ensures MaxSwap(false, target, d, fee, base, quote, remain).Ok? ==>
      var s := MaxSwap(false, target, d, fee, base, quote, remain).value;
      s > 0 ==>
        && s <= remain
        && (SellsFor(d, fee, base, quote, target, s) <==> Rewarding(d, fee, base, quote, target, s))
        && (DearUpTo(fee, base, quote, RateUp(d, target), remain) ==>
            SellsFor(d, fee, base, quote, target, s))
        && (!DearUpTo(fee, base, quote, RateDown(d, target), 1) ==>
            !SellsFor(d, fee, base, quote, target, s))
  {
    hide AskPrice, MaxSwap, SellsFor, Rewarding, DearUpTo, RateUp, RateDown, Hits;
    if MaxSwap(false, target, d, fee, base, quote, remain).Ok? {
      var s := MaxSwap(false, target, d, fee, base, quote, remain).value;
      AskLegEndings(target, d, fee, base, quote, remain);
      if s > 0 {
        SaleBringsIff(d, fee, base, quote, target, s);
        SaleBracket(d, fee, base, quote, target, s, remain);
      }
    }
  }

  // ---------- the better of pool and book ----------

  function PaidFor(fee: Fee, base: nat, quote: nat, s: nat): nat
    requires s < base
  {
    if s == 0 then 0 else InFor(s, quote, base, fee)
  }

  /** No purchase of up to `t` from these reserves costs so little. */
  ghost predicate NothingCheaper(d: Decimals, fee: Fee, base: nat, quote: nat, price: nat, t: int) {
    forall x: nat | 0 < x <= t && x < base :: !BuysWithin(d, fee, base, quote, price, x)
  }

  /** No sale of up to `t` to these reserves brings so much. */
  ghost predicate NothingDearer(d: Decimals, fee: Fee, base: nat, quote: nat, price: nat, t: int)
    requires base > 0
  {
    forall x: nat | 0 < x <= t :: !SellsFor(d, fee, base, quote, price, x)
  }

  /**
    Taking `s` of an order from the pool and the rest from an ask at `price` is filling at the better of the two:
    what the pool gives costs no more than `price`, and nothing more from the pool would have cost so little.
   */
  ghost predicate BestPurchase(d: Decimals, fee: Fee, base: nat, quote: nat, price: nat, remain: nat, s: nat)
    requires s < base
  {
    && (s > 0 ==> BuysWithin(d, fee, base, quote, price, s))
    && NothingCheaper(d, fee, base - s, quote + PaidFor(fee, base, quote, s), price, remain - s)
  }

  /** The test for it, at a rate `out` for what is taken and `left` for what is not. */
  predicate BestPurchaseTest(fee: Fee, base: nat, quote: nat, remain: nat, s: nat, out: nat, left: nat)
    requires s < base
  {
    && (s == 0 || CheapUpTo(fee, base, quote, out, s))
    && (s >= remain || s + 1 >= base
        || !CheapUpTo(fee, base - s, quote + PaidFor(fee, base, quote, s), left, 1))
  }

  /** The test is sufficient with the rates rounded against the order and necessary with them rounded for it. */
  lemma BestPurchaseBracket(d: Decimals, fee: Fee, base: nat, quote: nat, price: nat, remain: nat, s: nat)
    requires s < base
    ensures BestPurchaseTest(fee, base, quote, remain, s, RateDown(d, price), RateUp(d, price)) ==>
      BestPurchase(d, fee, base, quote, price, remain, s)
    ensures BestPurchase(d, fee, base, quote, price, remain, s) ==>
      BestPurchaseTest(fee, base, quote, remain, s, RateUp(d, price), RateDown(d, price))
  {
    hide InFor, CostsWithin, CheapUpTo, RateUp, RateDown;
    var down, up := RateDown(d, price), RateUp(d, price);
    if s > 0 {
      PurchaseAtRate(fee, base, quote, down, s);
      PurchaseAtRate(fee, base, quote, up, s);
      RatesBracket(d, price, s, InFor(s, quote, base, fee));
    }
    var base', quote' := base - s, quote + PaidFor(fee, base, quote, s);
    if !CheapUpTo(fee, base', quote', up, 1) {
      forall x: nat | 0 < x <= remain - s && x < base' ensures !BuysWithin(d, fee, base', quote', price, x) {
        PurchaseBracket(d, fee, base', quote', price, x, x);
      }
    }
    if s < remain && s + 1 < base {
      PurchaseBracket(d, fee, base', quote', price, 1, 1);
    }
  }

  /** The mirror image: what the pool takes brings at least `price`, and no more would have. */
  ghost predicate BestSale(d: Decimals, fee: Fee, base: nat, quote: nat, price: nat, remain: nat, s: nat)
    requires base > 0 && quote > 0
  {
    OutBelowReserve(s, base, quote, fee);
    && (s > 0 ==> SellsFor(d, fee, base, quote, price, s))
    && NothingDearer(d, fee, base + s, quote - OutOf(s, base, quote, fee), price, remain - s)
  }

  predicate BestSaleTest(fee: Fee, base: nat, quote: nat, remain: nat, s: nat, out: nat, left: nat)
    requires base > 0 && quote > 0
  {
    OutBelowReserve(s, base, quote, fee);
    && (s == 0 || DearUpTo(fee, base, quote, out, s))
    && (s >= remain || !DearUpTo(fee, base + s, quote - OutOf(s, base, quote, fee), left, 1))
  }

  lemma BestSaleBracket(d: Decimals, fee: Fee, base: nat, quote: nat, price: nat, remain: nat, s: nat)
    requires base > 0 && quote > 0
    ensures BestSaleTest(fee, base, quote, remain, s, RateUp(d, price), RateDown(d, price)) ==>
      BestSale(d, fee, base, quote, price, remain, s)
    ensures BestSale(d, fee, base, quote, price, remain, s) ==>
      BestSaleTest(fee, base, quote, remain, s, RateDown(d, price), RateUp(d, price))
  {
    OutBelowReserve(s, base, quote, fee);
    hide OutOf, BringsAtLeast, DearUpTo, RateUp, RateDown;
    var down, up := RateDown(d, price), RateUp(d, price);
    if s > 0 {
      SaleAtRate(fee, base, quote, down, s);
      SaleAtRate(fee, base, quote, up, s);
      RatesBracket(d, price, s, OutOf(s, base, quote, fee));
    }
    var base', quote' := base + s, quote - OutOf(s, base, quote, fee);
    if !DearUpTo(fee, base', quote', down, 1) {
      forall x: nat | 0 < x <= remain - s ensures !SellsFor(d, fee, base', quote', price, x) {
        SaleBracket(d, fee, base', quote', price, x, x);
      }
    }
    if s < remain {
      SaleBracket(d, fee, base', quote', price, 1, 1);
    }
  }

  /** A price that is a whole number of quote units for one base unit has one rate: the tests are exact for it. */
  lemma WholePrice(d: Decimals, price: nat, rate: nat)
    requires price * BaseScale(d) == rate * PriceScale(d)
    ensures RateDown(d, price) == RateUp(d, price) == rate
  {
    WorthIsLargest(d, price, 1, rate);
    WorthIsLargest(d, price, 1, RateDown(d, price));
    WorthIsLargest(d, price, 1, RateUp(d, price));
    MulCancel(RateDown(d, price), rate, PriceScale(d));
    MulCancel(rate, RateUp(d, price), PriceScale(d));
  }

  /**
    Exactly when a buying search fills at the better of pool and book: its answer passes the test on quantities and no
    further quantity would. At a whole price that is two comparisons, and at any price it lies between two such.
   */
  lemma BidSearchIsBestIff(target: nat, d: Decimals, fee: Fee, base: nat, quote: nat, remain: nat, rate: nat)
    ensures MaxSwap(true, target, d, fee, base, quote, remain).Ok? ==>
      var s := MaxSwap(true, target, d, fee, base, quote, remain).value;
      && s < base
      && (BestPurchase(d, fee, base, quote, target, remain, s)
          <==> && (s > 0 ==> Affordable(d, fee, base, quote, target, s))
               && NoneAffordable(d, fee, base - s, quote + PaidFor(fee, base, quote, s), target, remain - s))
      && (target * BaseScale(d) == rate * PriceScale(d) ==>
          (BestPurchase(d, fee, base, quote, target, remain, s)
           <==> BestPurchaseTest(fee, base, quote, remain, s, rate, rate)))
  {
    hide BidPrice, SearchFrom, InFor, CostsWithin, Affordable, CheapUpTo, RateUp, RateDown;
    if MaxSwap(true, target, d, fee, base, quote, remain).Ok? {
      var s := MaxSwap(true, target, d, fee, base, quote, remain).value;
      BidLegStaysBelowTarget(target, d, fee, base, quote, remain);
      hide MaxSwap;
      if s > 0 {
        PurchaseCostIff(d, fee, base, quote, target, s);
      }
      NothingCheaperIff(d, fee, base - s, quote + PaidFor(fee, base, quote, s), target, remain - s);
      BestPurchaseBracket(d, fee, base, quote, target, remain, s);
      if target * BaseScale(d) == rate * PriceScale(d) {
        WholePrice(d, target, rate);
      }
    }
  }

  ghost predicate NoneAffordable(d: Decimals, fee: Fee, base: nat, quote: nat, price: nat, t: int) {
    forall x: nat | 0 < x <= t && x < base :: !Affordable(d, fee, base, quote, price, x)
  }

  lemma NothingCheaperIff(d: Decimals, fee: Fee, base: nat, quote: nat, price: nat, t: int)
    ensures NothingCheaper(d, fee, base, quote, price, t) <==> NoneAffordable(d, fee, base, quote, price, t)
  {
    hide BuysWithin, Affordable;
    forall x: nat | 0 < x <= t && x < base
      ensures BuysWithin(d, fee, base, quote, price, x) <==> Affordable(d, fee, base, quote, price, x)
    {
      PurchaseCostIff(d, fee, base, quote, price, x);
    }
  }

  /** The same for a selling search. */
  lemma AskSearchIsBestIff(target: nat, d: Decimals, fee: Fee, base: nat, quote: nat, remain: nat, rate: nat)
    requires base > 0 && quote > 0
    ensures MaxSwap(false, target, d, fee, base, quote, remain).Ok? ==>
      var s := MaxSwap(false, target, d, fee, base, quote, remain).value;
      && OutOf(s, base, quote, fee) < quote
      && (BestSale(d, fee, base, quote, target, remain, s)
          <==> && (s > 0 ==> Rewarding(d, fee, base, quote, target, s))
               && NoneRewarding(d, fee, base + s, quote - OutOf(s, base, quote, fee), target, remain - s))
      && (target * BaseScale(d) == rate * PriceScale(d) ==>
          (BestSale(d, fee, base, quote, target, remain, s)
           <==> BestSaleTest(fee, base, quote, remain, s, rate, rate)))
  {
    hide MaxSwap, OutOf, BringsAtLeast, Rewarding, DearUpTo, RateUp, RateDown;
    if MaxSwap(false, target, d, fee, base, quote, remain).Ok? {
      var s := MaxSwap(false, target, d, fee, base, quote, remain).value;
      OutBelowReserve(s, base, quote, fee);
      if s > 0 {
        SaleBringsIff(d, fee, base, quote, target, s);
      }
      NothingDearerIff(d, fee, base + s, quote - OutOf(s, base, quote, fee), target, remain - s);
      BestSaleBracket(d, fee, base, quote, target, remain, s);
      if target * BaseScale(d) == rate * PriceScale(d) {
        WholePrice(d, target, rate);
      }
    }
  }

  ghost predicate NoneRewarding(d: Decimals, fee: Fee, base: nat, quote: nat, price: nat, t: int) {
    forall x: nat | 0 < x <= t :: !Rewarding(d, fee, base, quote, price, x)
  }

  lemma NothingDearerIff(d: Decimals, fee: Fee, base: nat, quote: nat, price: nat, t: int)
    requires base > 0
    ensures NothingDearer(d, fee, base, quote, price, t) <==> NoneRewarding(d, fee, base, quote, price, t)
  {
    hide SellsFor, Rewarding;
    forall x: nat | 0 < x <= t
      ensures SellsFor(d, fee, base, quote, price, x) <==> Rewarding(d, fee, base, quote, price, x)
    {
      SaleBringsIff(d, fee, base, quote, price, x);
    }
  }

  // ---------- three legs that are no bargain ----------

  /** A pool at 100 and an ask at 100: the search buys one unit from the pool, for 101. */
  lemma PurchaseCostsMore()
    ensures var d := Decimals(0, 0, 0);
      && MaxSwap(true, 100, d, 3, 1000, 100000, 1) == Ok(1)
      && InFor(1, 100000, 1000, 3) == 101 && !BuysWithin(d, 3, 1000, 100000, 100, 1)
  {
    var d := Decimals(0, 0, 0);
    assert InFor(1, 100000, 1000, 3) == 101 by {
      assert 100000000 / 996003 == 100;
    }
    assert GetAmountIn(1, 100000, 1000, 3) == Ok(101);
    assert PoolPrice(d, 999, 100101) == Ok(100);
    assert ProbePrice(true, d, 3, 1000, 100000, 1) == Ok(100);
    assert Mid(Search(0, 1, 0)) == 1;
    hide ProbePrice, Mid, InFor;
  }

  /** A bid at 999: the search sells one unit to the pool, for 996. */
  lemma SaleBringsLess()
    ensures var d := Decimals(0, 0, 0);
      && MaxSwap(false, 999, d, 3, 100000, 100000000, 1) == Ok(1)
      && OutOf(1, 100000, 100000000, 3) == 996 && !SellsFor(d, 3, 100000, 100000000, 999, 1)
  {
    var d := Decimals(0, 0, 0);
    assert OutOf(1, 100000, 100000000, 3) == 996 by {
      assert 99700000000 / 100000997 == 996;
    }
    assert GetAmountOut(1, 100000, 100000000, 3) == Ok(996);
    assert PoolPrice(d, 100001, 99999004) == Ok(999);
    assert ProbePrice(false, d, 3, 100000, 100000000, 1) == Ok(999);
    assert Mid(Search(0, 1, 0)) == 1;
    hide ProbePrice, Mid, OutOf;
  }

  /** An ask at 115: the search leaves the pool, which would have asked 112, since its price then is 123. */
  lemma CheaperPoolSkipped()
    ensures var d := Decimals(0, 0, 0);
      && MaxSwap(true, 115, d, 3, 10, 1000, 1) == Ok(0)
      && InFor(1, 1000, 10, 3) == 112 && BuysWithin(d, 3, 10, 1000, 115, 1)
  {
    var d := Decimals(0, 0, 0);
    assert InFor(1, 1000, 10, 3) == 112 by {
      assert 1000000 / 8973 == 111;
    }
    assert GetAmountIn(1, 1000, 10, 3) == Ok(112);
    assert PoolPrice(d, 9, 1112) == Ok(123);
    assert ProbePrice(true, d, 3, 10, 1000, 1) == Ok(123);
    assert Mid(Search(0, 1, 0)) == 1;
    assert Normalize(1, d.base) == Ok(1);
    hide ProbePrice, Mid, InFor, Normalize;
    assert SearchFrom(true, 115, d, 3, 10, 1000, Search(0, 0, 0)) == Ok(0);
  }
}

/**
  Pool prices, and the search for the largest pool leg that does not pass the best book price.

  Rust's plain operators on `u128`, and `10u64.pow`, stop the call when they leave their range; that is `Trap`.
 */
module SwapSearch {
  import opened Arithmetic
  import opened Amm
  import opened Errors
  import opened Wrappers

  /** Decimals of the pool price and of the two assets. */
  datatype Decimals = Decimals(pool: nat, base: nat, quote: nat)

  function Pow10(n: nat): (r: nat)
    ensures r > 0
  {
    if n == 0 then 1 else 10 * Pow10(n - 1)
  }

  lemma {:induction false} TenPowersMultiply(a: nat, b: nat)
    ensures Pow10(a + b) == Pow10(a) * Pow10(b)
  {
    if a > 0 {
      TenPowersMultiply(a - 1, b);
      MulAssoc(10, Pow10(a - 1), Pow10(b));
    }
  }

  /** `10u64.pow(n)`: the largest power of ten in a `u64` is the 19th. */
  function CheckedPow10(n: nat): Result<nat, MarketError> {
    if n <= 19 then Ok(Pow10(n)) else Err(Trap)
  }

  function InUnit(a: int): (r: Result<nat, MarketError>)
    ensures r.Ok? <==> 0 <= a <= U128_MAX
    ensures r.Ok? ==> r.value == a
  {
    if 0 <= a <= U128_MAX then Ok(a) else Err(Trap)
  }

  function FromAmm(r: Result<nat, AmmError>): (r': Result<nat, MarketError>)
    ensures r'.Ok? <==> r.Ok?
    ensures r'.Ok? ==> r'.value == r.value
  {
    match r
    case Ok(v) => Ok(v)
    case Err(e) => Err(Refused(e))
  }

  /** `normalize`: scale up by a power of ten. */
  function Normalize(a: nat, adjustment: nat): (r: Result<nat, MarketError>)
    ensures r.Ok? && a > 0 ==> r.value > 0
  {
    var factor :- CheckedPow10(adjustment);
    MulSign(a, factor);
    InUnit(a * factor)
  }

  /** `denom`: scale down by a power of ten. */
  function Denom(a: nat, adjustment: nat): Result<nat, MarketError> {
    var factor :- CheckedPow10(adjustment);
    DivPositive(a, factor);
    Ok(a / factor)
  }

  /** The scaling of the base side of a price. */
  function BaseAdjustment(d: Decimals): nat {
    if d.base < d.quote then d.quote - d.base else 0
  }

  /** The scaling of the quote side of a price. */
  function QuoteAdjustment(d: Decimals): nat {
    if d.base > d.quote then d.base - d.quote else 0
  }

  /** Price of one base unit over the given reserves, rounded down, without range checks. */
  function PriceOf(d: Decimals, base: nat, quote: nat): nat
    requires base > 0
  {
    MulSign(base, Pow10(BaseAdjustment(d)));
    var b := base * Pow10(BaseAdjustment(d));
    DivPositive(Pow10(d.pool) * (quote * Pow10(QuoteAdjustment(d))), b);
    Pow10(d.pool) * (quote * Pow10(QuoteAdjustment(d))) / b
  }

  /** `pool_price`. */
  function PoolPrice(d: Decimals, base: nat, quote: nat): (r: Result<nat, MarketError>)
    ensures r.Ok? ==> base > 0 && r.value == PriceOf(d, base, quote)
  {
    var baseNorm :- Normalize(base, BaseAdjustment(d));
    var quoteNorm :- Normalize(quote, QuoteAdjustment(d));
    var one :- Normalize(1, d.pool);
    FromAmm(Quote(one, baseNorm, quoteNorm))
  }

  /** What a price means: whole quote tokens for one whole base token, in units of ten to the minus `d.pool`. */
  lemma PriceMeans(d: Decimals, base: nat, quote: nat, x: nat)
    requires base > 0
    ensures PriceOf(d, base, quote) >= x
       <==> quote * Pow10(d.base) * Pow10(d.pool) >= x * (base * Pow10(d.quote))
  {
    var p, b, q := Pow10(d.pool), Pow10(BaseAdjustment(d)), Pow10(QuoteAdjustment(d));
    MulSign(base, b);
    DivReaches(p * (quote * q), base * b, x);
    if d.base >= d.quote {
      TenPowersMultiply(d.base - d.quote, d.quote);
      assert b == Pow10(0) == 1 && Pow10(d.base) == q * Pow10(d.quote);
      PriceScaled(p, quote, q, base, 1, x, Pow10(d.quote));
    } else {
      TenPowersMultiply(d.quote - d.base, d.base);
      assert q == Pow10(0) == 1 && Pow10(d.quote) == b * Pow10(d.base);
      PriceScaled(p, quote, 1, base, b, x, Pow10(d.base));
    }
  }

  lemma PriceScaled(p: nat, quote: nat, q: nat, base: nat, b: nat, x: nat, k: nat)
    requires k > 0
    ensures p * (quote * q) >= base * b * x <==> quote * (q * k) * p >= x * (base * (b * k))
  {
    assert quote * (q * k) * p == (p * (quote * q)) * k by {
      MulAssoc(quote, q, k);
      MulAssoc(quote * q, k, p);
      MulAssoc(quote * q, p, k);
    }
    assert x * (base * (b * k)) == (base * b * x) * k by {
      MulAssoc(base, b, k);
      MulAssoc(x, base * b, k);
    }
    if p * (quote * q) >= base * b * x {
      MulMono(base * b * x, p * (quote * q), k);
    } else {
      MulMono(p * (quote * q) + 1, base * b * x, k);
      SumOfProducts(p * (quote * q), 1, k);
    }
  }

  lemma NormalizeSucceedsIff(a: nat, adjustment: nat)
    ensures Normalize(a, adjustment).Ok? <==> adjustment <= 19 && a * Pow10(adjustment) <= U128_MAX
    ensures Normalize(a, adjustment).Ok? ==> Normalize(a, adjustment).value == a * Pow10(adjustment)
  {
  }

  /** Exactly when a pool price can be computed: both scaled reserves, the unit and the price are in range. */
  lemma PoolPriceSucceedsIff(d: Decimals, base: nat, quote: nat)
    ensures PoolPrice(d, base, quote).Ok?
       <==> && base > 0 && d.pool <= 19 && BaseAdjustment(d) <= 19 && QuoteAdjustment(d) <= 19
            && base * Pow10(BaseAdjustment(d)) <= U128_MAX && quote * Pow10(QuoteAdjustment(d)) <= U128_MAX
            && Pow10(d.pool) <= U128_MAX && Pow10(d.pool) * (quote * Pow10(QuoteAdjustment(d))) <= U256_MAX
            && PriceOf(d, base, quote) <= U128_MAX
  {
    var b, q := base * Pow10(BaseAdjustment(d)), quote * Pow10(QuoteAdjustment(d));
    NormalizeSucceedsIff(base, BaseAdjustment(d));
    NormalizeSucceedsIff(quote, QuoteAdjustment(d));
    NormalizeSucceedsIff(1, d.pool);
    MulSign(base, Pow10(BaseAdjustment(d)));
    MulDivSucceedsIff(Pow10(d.pool), q, b);
    if base > 0 {
      DivReaches(Pow10(d.pool) * q, b, U128_MAX + 1);
    }
    hide Normalize, MulDiv, Pow10;
  }

  /** The pool price after buying `s` of the base asset. */
  function BidPrice(d: Decimals, fee: Fee, base: nat, quote: nat, s: nat): nat
    requires s < base
  {
    PriceOf(d, base - s, quote + InFor(s, quote, base, fee))
  }

  /** The pool price after selling `s` of the base asset. */
  function AskPrice(d: Decimals, fee: Fee, base: nat, quote: nat, s: nat): nat
    requires base > 0 && quote > 0
  {
    OutBelowReserve(s, base, quote, fee);
    PriceOf(d, base + s, quote - OutOf(s, base, quote, fee))
  }

  /** The price the search computes for a probe. */
  function ProbePrice(isBid: bool, d: Decimals, fee: Fee, base: nat, quote: nat, mid: nat)
    : (r: Result<nat, MarketError>)
    ensures r.Ok? ==> base > 0 && quote > 0
    ensures r.Ok? && isBid ==> mid < base && r.value == BidPrice(d, fee, base, quote, mid)
    ensures r.Ok? && !isBid ==> r.value == AskPrice(d, fee, base, quote, mid)
  {
    if isBid then
      var amountIn :- FromAmm(GetAmountIn(mid, quote, base, fee));
      var quoteAfter :- InUnit(quote + amountIn);
      PoolPrice(d, base - mid, quoteAfter)
    else
      var amountOut :- FromAmm(GetAmountOut(mid, base, quote, fee));
      var baseAfter :- InUnit(base + mid);
      OutBelowReserve(mid, base, quote, fee);
      PoolPrice(d, baseAfter, quote - amountOut)
  }

  // ---------- the search ----------

  /** One binary-search state: the open interval of candidates and the quantity recorded so far. */
  datatype Search = Search(min: nat, max: nat, found: nat)

  /** The middle probe of a non-empty interval, rounded up. */
  function Mid(s: Search): (m: nat)
    requires s.min < s.max
    ensures s.min < m <= s.max
    ensures m - s.min - 1 <= s.max - m <= m - s.min
  {
    (s.min + s.max + 1) / 2
  }

  /** The next state after probe `mid` was priced off target; `below` says on which side. */
  function Narrow(isBid: bool, s: Search, mid: nat, below: bool, unit: nat): (r: Result<Search, MarketError>)
    ensures r.Ok? && s.min < mid <= s.max && unit > 0 ==> r.value.max - r.value.min < s.max - s.min
  {
    if below == isBid then
      var min :- InUnit(mid + unit);
      Ok(Search(min, s.max, if below then mid else s.found))
    else
      var max :- InUnit(mid - unit);
      Ok(Search(s.min, max, if below then mid else s.found))
  }

  function SearchFrom(isBid: bool, target: nat, d: Decimals, fee: Fee, base: nat, quote: nat, s: Search)
    : Result<nat, MarketError>
    decreases s.max - s.min
  {
    if s.min >= s.max then Ok(s.found)
    else
      var sum :- InUnit(s.min + s.max + 1);
      var mid := Mid(s);
      var price :- ProbePrice(isBid, d, fee, base, quote, mid);
      if price == target then Ok(mid)
      else
        var unit :- Normalize(1, d.base);
        var next :- Narrow(isBid, s, mid, price < target, unit);
        SearchFrom(isBid, target, d, fee, base, quote, next)
  }

  /** What `find_max_swap_quantity` returns. */
  function MaxSwap(isBid: bool, target: nat, d: Decimals, fee: Fee, base: nat, quote: nat, remain: nat)
    : Result<nat, MarketError>
  {
    if base == 0 || quote == 0 then Err(Refused(ZeroLiquidity))
    else SearchFrom(isBid, target, d, fee, base, quote, Search(0, remain, 0))
  }

  lemma SearchEnds(isBid: bool, target: nat, d: Decimals, fee: Fee, base: nat, quote: nat, s: Search)
    requires s.min >= s.max
    ensures SearchFrom(isBid, target, d, fee, base, quote, s) == Ok(s.found)
  {
  }

  /** One round of the search. */
  lemma SearchRound(isBid: bool, target: nat, d: Decimals, fee: Fee, base: nat, quote: nat, s: Search)
    requires s.min < s.max
    ensures var result := SearchFrom(isBid, target, d, fee, base, quote, s);
      var probe, unit := ProbePrice(isBid, d, fee, base, quote, Mid(s)), Normalize(1, d.base);
      if s.min + s.max + 1 > U128_MAX then result == Err(Trap)
      else if probe.Err? then result == Err(probe.error)
      else if probe.value == target then result == Ok(Mid(s))
      else if unit.Err? then result == Err(unit.error)
      else
        var next := Narrow(isBid, s, Mid(s), probe.value < target, unit.value);
        result == if next.Err? then Err(next.error)
                  else SearchFrom(isBid, target, d, fee, base, quote, next.value)
  {
    hide ProbePrice, Normalize, Narrow;
  }

  method FindMaxSwapQuantity(isBid: bool, target: nat, d: Decimals, fee: Fee, base: nat, quote: nat, remain: nat)
    returns (r: Result<nat, MarketError>)
    ensures r == MaxSwap(isBid, target, d, fee, base, quote, remain)
  {
    if base == 0 || quote == 0 {
      return Err(Refused(ZeroLiquidity));
    }
    hide ProbePrice, Normalize, SearchFrom, Narrow;
    var min: nat, max: nat, swapQuantity: nat := 0, remain, 0;
    while min < max
      invariant SearchFrom(isBid, target, d, fee, base, quote, Search(0, remain, 0))
             == SearchFrom(isBid, target, d, fee, base, quote, Search(min, max, swapQuantity))
      decreases max - min
    {
      SearchRound(isBid, target, d, fee, base, quote, Search(min, max, swapQuantity));
      if min + max + 1 > U128_MAX {
        return Err(Trap);
      }
      var mid := (min + max + 1) / 2;
      assert mid == Mid(Search(min, max, swapQuantity));
      var poolPrice :- ProbePrice(isBid, d, fee, base, quote, mid);
      if poolPrice == target {
        return Ok(mid);
      }
      var unit :- Normalize(1, d.base);
      var next :- Narrow(isBid, Search(min, max, swapQuantity), mid, poolPrice < target, unit);
      min, max, swapQuantity := next.min, next.max, next.found;
    }
    assert SearchFrom(isBid, target, d, fee, base, quote, Search(min, max, swapQuantity)) == Ok(swapQuantity) by {
      SearchEnds(isBid, target, d, fee, base, quote, Search(min, max, swapQuantity));
    }
    return Ok(swapQuantity);
  }

  // ---------- prices move one way ----------

  /** More quote over less base is a higher price. */
  lemma PriceGrows(d: Decimals, base: nat, quote: nat, base': nat, quote': nat)
    requires base >= base' > 0 && quote <= quote'
    ensures PriceOf(d, base, quote) <= PriceOf(d, base', quote')
  {
    var p, b, q := Pow10(d.pool), Pow10(BaseAdjustment(d)), Pow10(QuoteAdjustment(d));
    MulMono(base', base, b);
    MulMono(quote, quote', q);
    MulMono(quote * q, quote' * q, p);
    MulSign(base', b);
    DivMono(p * (quote * q), base * b, p * (quote' * q), base' * b);
  }

  lemma BidPriceGrows(d: Decimals, fee: Fee, base: nat, quote: nat, s: nat, s': nat)
    requires s <= s' < base
    ensures BidPrice(d, fee, base, quote, s) <= BidPrice(d, fee, base, quote, s')
    ensures PriceOf(d, base, quote) <= BidPrice(d, fee, base, quote, s)
  {
    QuoteGrows(s, s', quote, base, fee);
    hide InFor, PriceOf;
    PriceGrows(d, base - s, quote + InFor(s, quote, base, fee), base - s', quote + InFor(s', quote, base, fee));
    PriceGrows(d, base, quote, base - s, quote + InFor(s, quote, base, fee));
  }

  /** What a sale brings grows with what is sold. */
  lemma SaleGrows(x: nat, x': nat, r: nat, q: nat, fee: Fee)
    requires r > 0 && q > 0 && x <= x'
    ensures OutOf(x, r, q, fee) <= OutOf(x', r, q, fee) < q
  {
    OutBelowReserve(x, r, q, fee);
    OutBelowReserve(x', r, q, fee);
    var y := OutOf(x, r, q, fee);
    BuysAtLeast(x, y, r, q, fee);
    MulMono(x, x', Room(y, q, fee));
    BuysAtLeast(x', y, r, q, fee);
  }

  lemma AskPriceFalls(d: Decimals, fee: Fee, base: nat, quote: nat, s: nat, s': nat)
    requires base > 0 && quote > 0 && s <= s'
    ensures AskPrice(d, fee, base, quote, s') <= AskPrice(d, fee, base, quote, s)
  {
    SaleGrows(s, s', base, quote, fee);
    hide OutOf, PriceOf;
    PriceGrows(d, base + s', quote - OutOf(s', base, quote, fee), base + s, quote - OutOf(s, base, quote, fee));
  }

  // ---------- the quantities a search can end on ----------

  /** The probes on the way to quantity `x`, by halving alone: whether `x` itself comes up. */
  ghost predicate Reaches(min: nat, max: int, unit: nat, x: nat)
    requires unit > 0
    decreases max - min
  {
    && min < max
    && var mid := Mid(Search(min, max, 0));
      if x == mid then true
      else if x < mid then Reaches(min, mid - unit, unit, x)
      else Reaches(mid + unit, max, unit, x)
  }

  lemma {:induction false} ReachesWithin(min: nat, max: int, unit: nat, x: nat)
    requires unit > 0 && Reaches(min, max, unit, x)
    ensures min < x <= max
    decreases max - min
  {
    var mid := Mid(Search(min, max, 0));
    if x < mid {
      ReachesWithin(min, mid - unit, unit, x);
    } else if x > mid {
      ReachesWithin(mid + unit, max, unit, x);
    }
  }

  /** Going on from a probe: what comes up below it and above it. */
  lemma ReachesBeside(min: nat, max: nat, unit: nat, x: nat)
    requires unit > 0 && min < max
    ensures var mid := Mid(Search(min, max, 0));
      && (Reaches(min, max, unit, x)
          <==> x == mid || Reaches(min, mid - unit, unit, x) || Reaches(mid + unit, max, unit, x))
      && (Reaches(min, mid - unit, unit, x) ==> x < mid) && (Reaches(mid + unit, max, unit, x) ==> x > mid + unit)
  {
    var mid := Mid(Search(min, max, 0));
    if Reaches(min, mid - unit, unit, x) {
      ReachesWithin(min, mid - unit, unit, x);
    }
    if Reaches(mid + unit, max, unit, x) {
      ReachesWithin(mid + unit, max, unit, x);
    }
  }

  // ---------- bids ----------

  /** From `x` on, buying passes the target. */
  ghost predicate PassesFrom(d: Decimals, fee: Fee, base: nat, quote: nat, target: nat, x: int) {
    forall s: nat | x <= s < base :: BidPrice(d, fee, base, quote, s) > target
  }

  /** What holds in every state of a search for a bid. */
  ghost predicate BidState(d: Decimals, fee: Fee, base: nat, quote: nat, target: nat, remain: nat, unit: nat,
      s: Search)
  {
    && s.found <= remain && s.max <= remain
    && (s.found == 0 || (s.found < base && BidPrice(d, fee, base, quote, s.found) < target))
    && s.min <= s.found + unit
    && (s.max == remain || PassesFrom(d, fee, base, quote, target, s.max + unit))
  }

  lemma NarrowKeepsBidState(d: Decimals, fee: Fee, base: nat, quote: nat, target: nat, remain: nat, unit: nat,
      s: Search, mid: nat)
    requires BidState(d, fee, base, quote, target, remain, unit, s)
    requires s.min < mid <= s.max && mid < base && BidPrice(d, fee, base, quote, mid) != target
    requires Narrow(true, s, mid, BidPrice(d, fee, base, quote, mid) < target, unit).Ok?
    ensures BidState(d, fee, base, quote, target, remain, unit,
                     Narrow(true, s, mid, BidPrice(d, fee, base, quote, mid) < target, unit).value)
  {
    hide BidPrice;
    if BidPrice(d, fee, base, quote, mid) > target {
      forall x: nat | mid <= x < base ensures BidPrice(d, fee, base, quote, x) > target {
        BidPriceGrows(d, fee, base, quote, mid, x);
      }
    }
  }

  /** What a bid search promises about its result. */
  ghost predicate BidAnswer(d: Decimals, fee: Fee, base: nat, quote: nat, target: nat, remain: nat, unit: nat, s: nat) {
    && s <= remain
    && (s == 0 || (s < base && BidPrice(d, fee, base, quote, s) <= target))
    && ((0 < s < base && BidPrice(d, fee, base, quote, s) == target)
        || forall x: nat | s + 2 * unit <= x <= remain && x < base :: BidPrice(d, fee, base, quote, x) > target)
  }

  lemma {:induction false} BidSearchAnswers(target: nat, d: Decimals, fee: Fee, base: nat, quote: nat, remain: nat,
      s: Search)
    requires BidState(d, fee, base, quote, target, remain, Pow10(d.base), s)
    requires SearchFrom(true, target, d, fee, base, quote, s).Ok?
    ensures BidAnswer(d, fee, base, quote, target, remain, Pow10(d.base),
                      SearchFrom(true, target, d, fee, base, quote, s).value)
    decreases s.max - s.min
  {
    hide BidPrice, ProbePrice;
    if s.min < s.max {
      var mid := Mid(s);
      var price := ProbePrice(true, d, fee, base, quote, mid).value;
      if price != target {
        NarrowKeepsBidState(d, fee, base, quote, target, remain, Pow10(d.base), s, mid);
        var next := Narrow(true, s, mid, price < target, Pow10(d.base)).value;
        BidSearchAnswers(target, d, fee, base, quote, remain, next);
      }
    }
  }

  /**
    A bid's pool leg, whenever the search returns: it fits in the order, does not push the pool price past the
    book price, and, unless it meets that price exactly, is less than two base units short of the largest such leg.
   */
  lemma BidLegStaysBelowTarget(target: nat, d: Decimals, fee: Fee, base: nat, quote: nat, remain: nat)
    requires MaxSwap(true, target, d, fee, base, quote, remain).Ok?
    ensures BidAnswer(d, fee, base, quote, target, remain, Pow10(d.base),
                      MaxSwap(true, target, d, fee, base, quote, remain).value)
  {
    hide BidPrice, SearchFrom;
    BidSearchAnswers(target, d, fee, base, quote, remain, Search(0, remain, 0));
  }

  /** `x` could have been taken without passing the target. */
  ghost predicate BidFits(d: Decimals, fee: Fee, base: nat, quote: nat, target: nat, x: nat) {
    x < base && BidPrice(d, fee, base, quote, x) <= target
  }

  /** From any state a search ends on what it has recorded or on a quantity that halving brings up. */
  lemma {:induction false} SearchEndsOn(isBid: bool, target: nat, d: Decimals, fee: Fee, base: nat, quote: nat,
      s: Search)
    requires SearchFrom(isBid, target, d, fee, base, quote, s).Ok?
    ensures var found := SearchFrom(isBid, target, d, fee, base, quote, s).value;
      found == s.found || Reaches(s.min, s.max, Pow10(d.base), found)
    decreases s.max - s.min
  {
    hide ProbePrice, SearchFrom, Normalize, Reaches;
    var unit := Pow10(d.base);
    if s.min >= s.max {
      SearchEnds(isBid, target, d, fee, base, quote, s);
    } else {
      SearchRound(isBid, target, d, fee, base, quote, s);
      UnitIsPow10(d);
      var found := SearchFrom(isBid, target, d, fee, base, quote, s).value;
      ReachesBeside(s.min, s.max, unit, found);
      ReachesBeside(s.min, s.max, unit, Mid(s));
      var price := ProbePrice(isBid, d, fee, base, quote, Mid(s)).value;
      if price != target {
        SearchEndsOn(isBid, target, d, fee, base, quote, Narrow(isBid, s, Mid(s), price < target, unit).value);
      }
    }
  }

  /** Unless a buying search hits the target, it ends on no less than any quantity that halving brings up and fits. */
  lemma {:induction false} BidSearchBeats(target: nat, d: Decimals, fee: Fee, base: nat, quote: nat, s: Search, x: nat)
    requires SearchFrom(true, target, d, fee, base, quote, s).Ok?
    requires Reaches(s.min, s.max, Pow10(d.base), x) && BidFits(d, fee, base, quote, target, x)
    ensures var found := SearchFrom(true, target, d, fee, base, quote, s).value;
      x <= found || (0 < found < base && BidPrice(d, fee, base, quote, found) == target)
    decreases s.max - s.min
  {
    hide BidPrice, ProbePrice, SearchFrom, Normalize, Reaches;
    var unit := Pow10(d.base);
    ReachesWithin(s.min, s.max, unit, x);
    SearchRound(true, target, d, fee, base, quote, s);
    UnitIsPow10(d);
    var mid := Mid(s);
    var price := ProbePrice(true, d, fee, base, quote, mid).value;
    if price != target {
      var next := Narrow(true, s, mid, price < target, unit).value;
      ReachesBeside(s.min, s.max, unit, x);
      if price > target {
        if mid <= x {
          BidPriceGrows(d, fee, base, quote, mid, x);
        }
        BidSearchBeats(target, d, fee, base, quote, next, x);
      } else if x > mid {
        BidSearchBeats(target, d, fee, base, quote, next, x);
      } else {
        var found := SearchFrom(true, target, d, fee, base, quote, next).value;
        SearchEndsOn(true, target, d, fee, base, quote, next);
        ReachesBeside(s.min, s.max, unit, found);
      }
    }
  }

  lemma NothingReached(min: nat, max: nat, unit: nat)
    requires min >= max && unit > 0
    ensures forall x :: !Reaches(min, max, unit, x)
  {
  }

  /** `s` is nothing or came up, and fits; and either it hits the target or nothing larger that came up fits. */
  ghost predicate LargestFit(d: Decimals, fee: Fee, base: nat, quote: nat, target: nat, remain: nat, s: nat) {
    && (s > 0 ==> Reaches(0, remain, Pow10(d.base), s) && BidFits(d, fee, base, quote, target, s))
    && ((0 < s < base && BidPrice(d, fee, base, quote, s) == target)
        || forall x: nat | Reaches(0, remain, Pow10(d.base), x) && BidFits(d, fee, base, quote, target, x) :: x <= s)
  }

  /** Where a buying search ends: on the largest quantity that halving brings up and that does not pass the target. */
  lemma BidSearchIsLargest(target: nat, d: Decimals, fee: Fee, base: nat, quote: nat, remain: nat)
    ensures MaxSwap(true, target, d, fee, base, quote, remain).Ok? ==>
      LargestFit(d, fee, base, quote, target, remain, MaxSwap(true, target, d, fee, base, quote, remain).value)
  {
    hide BidPrice, SearchFrom, Reaches, BidFits, Pow10;
    if MaxSwap(true, target, d, fee, base, quote, remain).Ok? {
      var s, unit := MaxSwap(true, target, d, fee, base, quote, remain).value, Pow10(d.base);
      SearchEndsOn(true, target, d, fee, base, quote, Search(0, remain, 0));
      BidLegFits(target, d, fee, base, quote, remain);
      forall x | Reaches(0, remain, unit, x) && BidFits(d, fee, base, quote, target, x)
        ensures x <= s || (0 < s < base && BidPrice(d, fee, base, quote, s) == target)
      {
        BidSearchBeats(target, d, fee, base, quote, Search(0, remain, 0), x);
      }
    }
  }

  lemma BidLegFits(target: nat, d: Decimals, fee: Fee, base: nat, quote: nat, remain: nat)
    requires MaxSwap(true, target, d, fee, base, quote, remain).Ok?
    ensures var s := MaxSwap(true, target, d, fee, base, quote, remain).value;
      s > 0 ==> BidFits(d, fee, base, quote, target, s)
  {
    hide BidPrice, MaxSwap;
    BidLegStaysBelowTarget(target, d, fee, base, quote, remain);
  }

  // ---------- asks ----------

  /** The largest quantity an ask search ever probes: the last one when every probe is still above the target. */
  function TopProbe(min: nat, max: nat, unit: nat, last: nat): nat
    requires unit > 0
    decreases max - min
  {
    if min >= max then last
    else var mid := Mid(Search(min, max, 0)); TopProbe(mid + unit, max, unit, mid)
  }

  lemma {:induction false} TopProbeIsLargest(min: nat, max: nat, unit: nat, last: nat)
    requires unit > 0
    ensures min < max ==> Mid(Search(min, max, 0)) <= TopProbe(min, max, unit, last) <= max
    decreases max - min
  {
    if min < max {
      TopProbeIsLargest(Mid(Search(min, max, 0)) + unit, max, unit, Mid(Search(min, max, 0)));
    }
  }

  /** Once something is recorded, an ask search ends with a recorded or an exact probe. */
  lemma {:induction false} AskSearchKeepsRecord(target: nat, d: Decimals, fee: Fee, base: nat, quote: nat, s: Search)
    requires base > 0 && quote > 0
    requires s.found > 0 && AskPrice(d, fee, base, quote, s.found) < target
    requires SearchFrom(false, target, d, fee, base, quote, s).Ok?
    ensures var found := SearchFrom(false, target, d, fee, base, quote, s).value;
      found > 0 && AskPrice(d, fee, base, quote, found) <= target
    decreases s.max - s.min
  {
    hide AskPrice, ProbePrice;
    if s.min < s.max {
      var mid := Mid(s);
      var price := ProbePrice(false, d, fee, base, quote, mid).value;
      if price != target {
        AskSearchKeepsRecord(target, d, fee, base, quote,
                             Narrow(false, s, mid, price < target, Pow10(d.base)).value);
      }
    }
  }

  lemma {:induction false} AskSearchFollowsTop(target: nat, d: Decimals, fee: Fee, base: nat, quote: nat, s: Search)
    requires base > 0 && quote > 0 && s.found == 0
    requires SearchFrom(false, target, d, fee, base, quote, s).Ok?
    ensures var found := SearchFrom(false, target, d, fee, base, quote, s).value;
      var top := TopProbe(s.min, s.max, Pow10(d.base), 0);
      && (found == 0 <==> s.min >= s.max || AskPrice(d, fee, base, quote, top) > target)
      && (found > 0 ==> AskPrice(d, fee, base, quote, found) <= target)
    decreases s.max - s.min
  {
    hide AskPrice, ProbePrice, SearchFrom, Normalize, Narrow;
    var unit := Pow10(d.base);
    if s.min >= s.max {
      SearchEnds(false, target, d, fee, base, quote, s);
    } else {
      SearchRound(false, target, d, fee, base, quote, s);
      UnitIsPow10(d);
      var mid := Mid(s);
      var top := TopProbe(s.min, s.max, unit, 0);
      TopProbeIsLargest(s.min, s.max, unit, 0);
      AskPriceFalls(d, fee, base, quote, mid, top);
      var price := ProbePrice(false, d, fee, base, quote, mid).value;
      if price != target {
        var next := Narrow(false, s, mid, price < target, unit).value;
        AskNarrows(s, mid, price < target, unit);
        if price < target {
          AskSearchKeepsRecord(target, d, fee, base, quote, next);
        } else {
          AskSearchFollowsTop(target, d, fee, base, quote, next);
          TopProbeStep(s.min, s.max, unit);
        }
      }
    }
  }

  lemma UnitIsPow10(d: Decimals)
    ensures Normalize(1, d.base).Ok? ==> Normalize(1, d.base).value == Pow10(d.base)
  {
  }

  lemma AskNarrows(s: Search, mid: nat, below: bool, unit: nat)
    requires Narrow(false, s, mid, below, unit).Ok? && s.min < mid <= s.max && unit > 0
    ensures var next := Narrow(false, s, mid, below, unit).value;
      && next.max - next.min < s.max - s.min
      && (if below then next.min == s.min && next.max == mid - unit && next.found == mid
          else next == Search(mid + unit, s.max, s.found))
  {
  }

  lemma TopProbeStep(min: nat, max: nat, unit: nat)
    requires unit > 0 && min < max
    ensures var mid := Mid(Search(min, max, 0));
      TopProbe(min, max, unit, 0) == if mid + unit >= max then mid else TopProbe(mid + unit, max, unit, 0)
  {
    var mid := Mid(Search(min, max, 0));
    if mid + unit < max {
      TopProbeIgnoresLast(mid + unit, max, unit, mid);
    }
  }

  lemma TopProbeIgnoresLast(min: nat, max: nat, unit: nat, last: nat)
    requires unit > 0 && min < max
    ensures TopProbe(min, max, unit, last) == TopProbe(min, max, unit, 0)
  {
  }

  /** Some quantity that comes up when halving towards it brings the pool price exactly to the target. */
  ghost predicate Hits(d: Decimals, fee: Fee, base: nat, quote: nat, target: nat, min: nat, max: int)
    requires base > 0 && quote > 0
  {
    exists x :: Reaches(min, max, Pow10(d.base), x) && AskPrice(d, fee, base, quote, x) == target
  }

  /** A probe off the target leaves the exact quantities on the side the search goes on with. */
  lemma ProbeKeepsHits(d: Decimals, fee: Fee, base: nat, quote: nat, target: nat, s: Search)
    requires base > 0 && quote > 0 && s.min < s.max && AskPrice(d, fee, base, quote, Mid(s)) != target
    ensures var mid, unit := Mid(s), Pow10(d.base);
      Hits(d, fee, base, quote, target, s.min, s.max)
      <==> if AskPrice(d, fee, base, quote, mid) < target then Hits(d, fee, base, quote, target, s.min, mid - unit)
           else Hits(d, fee, base, quote, target, mid + unit, s.max)
  {
    hide AskPrice;
    var mid, unit := Mid(s), Pow10(d.base);
    var below := AskPrice(d, fee, base, quote, mid) < target;
    var min': nat, max': int := if below then s.min else mid + unit, if below then mid - unit else s.max;
    forall x: nat | AskPrice(d, fee, base, quote, x) == target
      ensures Reaches(s.min, s.max, unit, x) <==> Reaches(min', max', unit, x)
    {
      if x <= mid {
        AskPriceFalls(d, fee, base, quote, x, mid);
      } else {
        AskPriceFalls(d, fee, base, quote, mid, x);
      }
    }
  }

  /** An ask search ends on the target exactly when halving can reach it. */
  lemma {:induction false} AskSearchHits(target: nat, d: Decimals, fee: Fee, base: nat, quote: nat, remain: nat,
      s: Search)
    requires base > 0 && quote > 0 && s.max <= remain && s.found <= remain
    requires s.found == 0 || AskPrice(d, fee, base, quote, s.found) < target
    requires SearchFrom(false, target, d, fee, base, quote, s).Ok?
    ensures var found := SearchFrom(false, target, d, fee, base, quote, s).value;
      && found <= remain
      && (found > 0 && AskPrice(d, fee, base, quote, found) == target
          <==> Hits(d, fee, base, quote, target, s.min, s.max))
    decreases s.max - s.min
  {
    hide AskPrice, ProbePrice, SearchFrom, Normalize, Narrow, Hits;
    if s.min >= s.max {
      SearchEnds(false, target, d, fee, base, quote, s);
      NothingToHit(d, fee, base, quote, target, s);
    } else {
      SearchRound(false, target, d, fee, base, quote, s);
      UnitIsPow10(d);
      var mid := Mid(s);
      var price := ProbePrice(false, d, fee, base, quote, mid).value;
      if price == target {
        HitNow(d, fee, base, quote, target, s);
      } else {
        ProbeKeepsHits(d, fee, base, quote, target, s);
        AskNarrows(s, mid, price < target, Pow10(d.base));
        AskSearchHits(target, d, fee, base, quote, remain, Narrow(false, s, mid, price < target, Pow10(d.base)).value);
      }
    }
  }

  lemma NothingToHit(d: Decimals, fee: Fee, base: nat, quote: nat, target: nat, s: Search)
    requires base > 0 && quote > 0 && s.min >= s.max
    ensures !Hits(d, fee, base, quote, target, s.min, s.max)
  {
  }

  lemma HitNow(d: Decimals, fee: Fee, base: nat, quote: nat, target: nat, s: Search)
    requires base > 0 && quote > 0 && s.min < s.max && AskPrice(d, fee, base, quote, Mid(s)) == target
    ensures Hits(d, fee, base, quote, target, s.min, s.max)
  {
    assert Reaches(s.min, s.max, Pow10(d.base), Mid(s));
  }

  /**
    The three ways an ask search ends, and exactly when: it takes nothing from the pool, it brings the pool to the
    best bid, or it sells past the bid, since it records the probes on the wrong side of the target.
   */
  lemma AskLegEndings(target: nat, d: Decimals, fee: Fee, base: nat, quote: nat, remain: nat)
    requires base > 0 && quote > 0
    ensures MaxSwap(false, target, d, fee, base, quote, remain).Ok? ==>
      var s := MaxSwap(false, target, d, fee, base, quote, remain).value;
      var aboveThroughout := remain == 0
        || AskPrice(d, fee, base, quote, TopProbe(0, remain, Pow10(d.base), 0)) > target;
      var hits := Hits(d, fee, base, quote, target, 0, remain);
      && s <= remain && !(aboveThroughout && hits)
      && (s == 0 <==> aboveThroughout)
      && (s > 0 && AskPrice(d, fee, base, quote, s) == target <==> hits)
      && (s > 0 && AskPrice(d, fee, base, quote, s) < target <==> !aboveThroughout && !hits)
  {
    hide AskPrice, SearchFrom, Hits;
    if MaxSwap(false, target, d, fee, base, quote, remain).Ok? {
      AskSearchFollowsTop(target, d, fee, base, quote, Search(0, remain, 0));
      AskSearchHits(target, d, fee, base, quote, remain, Search(0, remain, 0));
    }
  }

  /** The mirror image of `BidSearchBeats`: asks record the probes below the target, going down. */
  lemma {:induction false} AskSearchBeats(target: nat, d: Decimals, fee: Fee, base: nat, quote: nat, s: Search, x: nat)
    requires base > 0 && quote > 0 && SearchFrom(false, target, d, fee, base, quote, s).Ok?
    requires Reaches(s.min, s.max, Pow10(d.base), x) && AskPrice(d, fee, base, quote, x) <= target
    ensures var found := SearchFrom(false, target, d, fee, base, quote, s).value;
      0 < found && (found <= x || AskPrice(d, fee, base, quote, found) == target)
    decreases s.max - s.min
  {
    hide AskPrice, ProbePrice, SearchFrom, Normalize, Reaches;
    var unit := Pow10(d.base);
    ReachesWithin(s.min, s.max, unit, x);
    SearchRound(false, target, d, fee, base, quote, s);
    UnitIsPow10(d);
    var mid := Mid(s);
    var price := ProbePrice(false, d, fee, base, quote, mid).value;
    if price != target {
      var next := Narrow(false, s, mid, price < target, unit).value;
      ReachesBeside(s.min, s.max, unit, x);
      if price > target {
        if x <= mid {
          AskPriceFalls(d, fee, base, quote, x, mid);
        }
        AskSearchBeats(target, d, fee, base, quote, next, x);
      } else if x < mid {
        AskSearchBeats(target, d, fee, base, quote, next, x);
      } else {
        var found := SearchFrom(false, target, d, fee, base, quote, next).value;
        SearchEndsOn(false, target, d, fee, base, quote, next);
        ReachesBeside(s.min, s.max, unit, found);
        if found != mid {
          ReachesWithin(next.min, next.max, unit, found);
        }
      }
    }
  }

  ghost predicate SmallestReach(d: Decimals, fee: Fee, base: nat, quote: nat, target: nat, remain: nat, s: nat)
    requires base > 0 && quote > 0
  {
    && (s > 0 ==> Reaches(0, remain, Pow10(d.base), s) && AskPrice(d, fee, base, quote, s) <= target)
    && ((s > 0 && AskPrice(d, fee, base, quote, s) == target)
        || forall x: nat | Reaches(0, remain, Pow10(d.base), x) && AskPrice(d, fee, base, quote, x) <= target ::
           0 < s <= x)
  }

  /** Where a selling search ends: on the smallest quantity that halving brings up and that reaches the target. */
  lemma AskSearchIsSmallest(target: nat, d: Decimals, fee: Fee, base: nat, quote: nat, remain: nat)
    requires base > 0 && quote > 0
    ensures MaxSwap(false, target, d, fee, base, quote, remain).Ok? ==>
      SmallestReach(d, fee, base, quote, target, remain, MaxSwap(false, target, d, fee, base, quote, remain).value)
  {
    hide AskPrice, SearchFrom, Reaches, Pow10;
    if MaxSwap(false, target, d, fee, base, quote, remain).Ok? {
      var s, unit := MaxSwap(false, target, d, fee, base, quote, remain).value, Pow10(d.base);
      SearchEndsOn(false, target, d, fee, base, quote, Search(0, remain, 0));
      AskSearchFollowsTop(target, d, fee, base, quote, Search(0, remain, 0));
      forall x | Reaches(0, remain, unit, x) && AskPrice(d, fee, base, quote, x) <= target
        ensures 0 < s && (s <= x || AskPrice(d, fee, base, quote, s) == target)
      {
        AskSearchBeats(target, d, fee, base, quote, Search(0, remain, 0), x);
      }
    }
  }

  // ---------- when a search traps ----------

  /** A probe of `x` makes the search go on with smaller quantities. */
  ghost predicate Shrinks(isBid: bool, d: Decimals, fee: Fee, base: nat, quote: nat, target: nat, x: nat) {
    var price := ProbePrice(isBid, d, fee, base, quote, x);
    price.Ok? && (if isBid then price.value > target else price.value < target)
  }

  /** Every quantity up to `remain` can be priced and stepped from. */
  ghost predicate Priced(isBid: bool, d: Decimals, fee: Fee, base: nat, quote: nat, remain: nat) {
    && (forall x | 0 < x <= remain :: ProbePrice(isBid, d, fee, base, quote, x).Ok?)
    && d.base <= 19 && remain + Pow10(d.base) <= U128_MAX && 2 * remain <= U128_MAX
  }

  /** Prices go one way, so what shrinks at a quantity shrinks at every larger one. */
  lemma ShrinkingGrows(isBid: bool, d: Decimals, fee: Fee, base: nat, quote: nat, target: nat, x: nat, y: nat)
    requires x <= y && ProbePrice(isBid, d, fee, base, quote, y).Ok? && Shrinks(isBid, d, fee, base, quote, target, x)
    ensures Shrinks(isBid, d, fee, base, quote, target, y)
  {
    hide ProbePrice, BidPrice, AskPrice;
    if isBid {
      BidPriceGrows(d, fee, base, quote, x, y);
    } else {
      AskPriceFalls(d, fee, base, quote, x, y);
    }
  }

  ghost predicate TrapsAt(isBid: bool, d: Decimals, fee: Fee, base: nat, quote: nat, target: nat, min: nat, max: int,
      x: nat)
  {
    Reaches(min, max, Pow10(d.base), x) && x < Pow10(d.base) && Shrinks(isBid, d, fee, base, quote, target, x)
  }

  ghost predicate Traps(isBid: bool, d: Decimals, fee: Fee, base: nat, quote: nat, target: nat, min: nat, max: int) {
    exists x :: TrapsAt(isBid, d, fee, base, quote, target, min, max, x)
  }

  /**
    Where every quantity can be priced, a search fails exactly when halving brings up a quantity of less than one unit
    that it would have to shrink further. With no decimals it never fails.
   */
  lemma {:induction false} SearchTrapsIff(isBid: bool, target: nat, d: Decimals, fee: Fee, base: nat, quote: nat,
      remain: nat, s: Search)
    requires Priced(isBid, d, fee, base, quote, remain) && s.max <= remain
    ensures SearchFrom(isBid, target, d, fee, base, quote, s).Err?
       <==> Traps(isBid, d, fee, base, quote, target, s.min, s.max)
    decreases s.max - s.min
  {
    hide ProbePrice, SearchFrom, Normalize, Reaches, Shrinks;
    var unit := Pow10(d.base);
    if s.min >= s.max {
      SearchEnds(isBid, target, d, fee, base, quote, s);
      NothingReached(s.min, s.max, unit);
    } else {
      SearchRound(isBid, target, d, fee, base, quote, s);
      UnitInRange(d, remain);
      var mid := Mid(s);
      assert ProbePrice(isBid, d, fee, base, quote, mid).Ok?;
      TrapsBeside(isBid, d, fee, base, quote, target, remain, s);
      ProbeTells(isBid, d, fee, base, quote, target, mid);
      var price := ProbePrice(isBid, d, fee, base, quote, mid).value;
      if price != target {
        var next := Narrow(isBid, s, mid, price < target, unit);
        if next.Ok? {
          SearchTrapsIff(isBid, target, d, fee, base, quote, remain, next.value);
        }
        hide Traps;
      }
    }
  }

  lemma UnitInRange(d: Decimals, remain: nat)
    requires d.base <= 19 && remain + Pow10(d.base) <= U128_MAX
    ensures Normalize(1, d.base) == Ok(Pow10(d.base))
  {
  }

  lemma ProbeTells(isBid: bool, d: Decimals, fee: Fee, base: nat, quote: nat, target: nat, mid: nat)
    requires ProbePrice(isBid, d, fee, base, quote, mid).Ok?
    ensures var price := ProbePrice(isBid, d, fee, base, quote, mid).value;
      Shrinks(isBid, d, fee, base, quote, target, mid) <==> price != target && (price < target) != isBid
  {
    hide ProbePrice;
  }

  lemma TrapsBelow(isBid: bool, d: Decimals, fee: Fee, base: nat, quote: nat, target: nat, remain: nat, s: Search)
    requires Priced(isBid, d, fee, base, quote, remain) && s.min < s.max <= remain
    ensures var mid, unit := Mid(s), Pow10(d.base);
      && (Traps(isBid, d, fee, base, quote, target, s.min, mid - unit) ==>
          && Shrinks(isBid, d, fee, base, quote, target, mid)
          && Traps(isBid, d, fee, base, quote, target, s.min, s.max))
      && !Traps(isBid, d, fee, base, quote, target, mid + unit, s.max)
  {
    hide ProbePrice, Reaches, Shrinks;
    var mid, unit := Mid(s), Pow10(d.base);
    var lower := mid as int - unit as int;
    if Traps(isBid, d, fee, base, quote, target, mid + unit, s.max) {
      var x :| TrapsAt(isBid, d, fee, base, quote, target, mid + unit, s.max, x);
      ReachesBeside(s.min, s.max, unit, x);
      assert false;
    }
    if Traps(isBid, d, fee, base, quote, target, s.min, lower) {
      var x :| TrapsAt(isBid, d, fee, base, quote, target, s.min, lower, x);
      ReachesBeside(s.min, s.max, unit, x);
      ShrinkingGrows(isBid, d, fee, base, quote, target, x, mid);
      assert TrapsAt(isBid, d, fee, base, quote, target, s.min, s.max, x);
    }
  }

  /** Where a trap can be, seen from a probe: only below it, or at it. */
  lemma TrapsBeside(isBid: bool, d: Decimals, fee: Fee, base: nat, quote: nat, target: nat, remain: nat, s: Search)
    requires Priced(isBid, d, fee, base, quote, remain) && s.min < s.max <= remain
    ensures var mid, unit := Mid(s), Pow10(d.base);
      && (Traps(isBid, d, fee, base, quote, target, s.min, s.max)
          <==> Shrinks(isBid, d, fee, base, quote, target, mid)
               && (mid < unit || Traps(isBid, d, fee, base, quote, target, s.min, mid - unit)))
      && !Traps(isBid, d, fee, base, quote, target, mid + unit, s.max)
  {
    hide ProbePrice, Reaches, Shrinks;
    var mid, unit := Mid(s), Pow10(d.base);
    var lower := mid as int - unit as int;
    TrapsBelow(isBid, d, fee, base, quote, target, remain, s);
    if Traps(isBid, d, fee, base, quote, target, s.min, s.max) {
      var x :| TrapsAt(isBid, d, fee, base, quote, target, s.min, s.max, x);
      ReachesBeside(s.min, s.max, unit, x);
      ShrinkingGrows(isBid, d, fee, base, quote, target, x, mid);
      assert mid < unit || TrapsAt(isBid, d, fee, base, quote, target, s.min, lower, x);
    }
    if mid < unit && Shrinks(isBid, d, fee, base, quote, target, mid) {
      ReachesBeside(s.min, s.max, unit, mid);
      assert TrapsAt(isBid, d, fee, base, quote, target, s.min, s.max, mid);
    }
  }

  /** What the search promises for bids, mirrored: the largest sale, within two units, that does not pass the bid. */
  ghost predicate AskAnswer(d: Decimals, fee: Fee, base: nat, quote: nat, target: nat, remain: nat, unit: nat, s: nat)
    requires base > 0 && quote > 0
  {
    && s <= remain
    && (s == 0 || AskPrice(d, fee, base, quote, s) >= target)
    && (AskPrice(d, fee, base, quote, s) == target
        || forall x: nat | s + 2 * unit <= x <= remain :: AskPrice(d, fee, base, quote, x) < target)
  }

  /**
    An ask search keeps that promise exactly when it hits the target, or when the order is so short that even its
    largest probe stays above the bid and a sale of two units, if the order has them, falls below it.
   */
  lemma AskAnswerIff(target: nat, d: Decimals, fee: Fee, base: nat, quote: nat, remain: nat)
    requires base > 0 && quote > 0
    ensures MaxSwap(false, target, d, fee, base, quote, remain).Ok? ==>
      var unit := Pow10(d.base);
      (AskAnswer(d, fee, base, quote, target, remain, unit, MaxSwap(false, target, d, fee, base, quote, remain).value)
       <==> || remain == 0
            || Hits(d, fee, base, quote, target, 0, remain)
            || (&& AskPrice(d, fee, base, quote, TopProbe(0, remain, unit, 0)) > target
                && (2 * unit > remain || AskPrice(d, fee, base, quote, 2 * unit) < target)))
  {
    hide AskPrice, MaxSwap, Hits, Reaches;
    if MaxSwap(false, target, d, fee, base, quote, remain).Ok? {
      var unit, s := Pow10(d.base), MaxSwap(false, target, d, fee, base, quote, remain).value;
      AskLegEndings(target, d, fee, base, quote, remain);
      if s == 0 && remain > 0 {
        var top := TopProbe(0, remain, unit, 0);
        AskPriceFalls(d, fee, base, quote, 0, top);
        forall x: nat | 2 * unit <= x
          ensures AskPrice(d, fee, base, quote, x) <= AskPrice(d, fee, base, quote, 2 * unit)
        {
          AskPriceFalls(d, fee, base, quote, 2 * unit, x);
        }
      }
    }
  }

  /** A sale of one unit that takes the pool from 100 to 82 although a bid stands at 90. */
  lemma AskLegExample()
    ensures var d := Decimals(0, 0, 0);
      && PriceOf(d, 10, 1000) == 100
      && MaxSwap(false, 90, d, 3, 10, 1000, 1) == Ok(1)
      && AskPrice(d, 3, 10, 1000, 1) == 82
  {
    var d := Decimals(0, 0, 0);
    assert 997 * 1000 / 10997 == 90;
    assert OutOf(1, 10, 1000, 3) == 90;
    assert PriceOf(d, 11, 910) == 82;
    assert ProbePrice(false, d, 3, 10, 1000, 1) == Ok(82) by {
      assert GetAmountOut(1, 10, 1000, 3) == Ok(90);
      assert PoolPrice(d, 11, 910) == Ok(82);
    }
    assert Mid(Search(0, 1, 0)) == 1;
    assert Normalize(1, d.base) == Ok(1);
    hide ProbePrice, Normalize, Mid;
    assert SearchFrom(false, 90, d, 3, 10, 1000, Search(0, 0, 1)) == Ok(1);
  }

  /** A sale that never comes to the pool, which would pay 9066 for it, and goes to the bid at 90 instead. */
  lemma AskLegSkipsPool()
    ensures var d := Decimals(0, 0, 0);
      && MaxSwap(false, 90, d, 3, 10, 100000, 1) == Ok(0)
      && OutOf(1, 10, 100000, 3) == 9066 && AskPrice(d, 3, 10, 100000, 1) == 8266
  {
    var d := Decimals(0, 0, 0);
    assert OutOf(1, 10, 100000, 3) == 9066 by {
      assert 997 * 100000 / 10997 == 9066;
    }
    assert PriceOf(d, 11, 90934) == 8266;
    assert ProbePrice(false, d, 3, 10, 100000, 1) == Ok(8266) by {
      assert GetAmountOut(1, 10, 100000, 3) == Ok(9066);
      assert PoolPrice(d, 11, 90934) == Ok(8266);
    }
    assert Mid(Search(0, 1, 0)) == 1;
    assert Normalize(1, d.base) == Ok(1);
    hide ProbePrice, Normalize, Mid;
    assert SearchFrom(false, 90, d, 3, 10, 100000, Search(2, 1, 0)) == Ok(0);
  }
}

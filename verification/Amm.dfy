/**
  Constant-product arithmetic of the pool: quotes with a fee, in integers rounded down.

  Amounts are `u128`; products are taken in `u256` with overflow checked. `OutOf` and `InFor` are the
  formulas without the checks, and the checked functions return exactly them or fail.
 */
module Amm {
  import opened Arithmetic
  import opened Wrappers

  const U128_MAX: nat := 0xffff_ffff_ffff_ffff_ffff_ffff_ffff_ffff
  const U256_MAX: nat := 0xffff_ffff_ffff_ffff_ffff_ffff_ffff_ffff_ffff_ffff_ffff_ffff_ffff_ffff_ffff_ffff

  /** The liquidity providers' fee, in tenths of a percent. */
  type Fee = fee: nat | fee < 1000

  datatype AmmError = Overflow | ZeroLiquidity | AmountOutTooHigh

  function CheckedMul(a: nat, b: nat): Result<nat, AmmError> {
    if a * b <= U256_MAX then Ok(a * b) else Err(Overflow)
  }

  function CheckedAdd(a: nat, b: nat): Result<nat, AmmError> {
    if a + b <= U256_MAX then Ok(a + b) else Err(Overflow)
  }

  function CheckedDiv(a: nat, b: nat): (r: Result<nat, AmmError>)
    ensures r.Ok? ==> b > 0 && r.value == a / b
  {
    if b > 0 then DivPositive(a, b); Ok(a / b) else Err(Overflow)
  }

  function ToUnit(a: nat): Result<nat, AmmError> {
    if a <= U128_MAX then Ok(a) else Err(Overflow)
  }

  function MulDiv(a: nat, b: nat, c: nat): (r: Result<nat, AmmError>)
    ensures r.Ok? ==> c > 0 && r.value == a * b / c && r.value <= U128_MAX
  {
    var product :- CheckedMul(a, b);
    var quotient :- CheckedDiv(product, c);
    ToUnit(quotient)
  }

  /** The amount of the second asset worth `amount` of the first at the reserves' ratio. */
  function Quote(amount: nat, reserve1: nat, reserve2: nat): (r: Result<nat, AmmError>)
    ensures r.Ok? ==> reserve1 > 0 && r.value == amount * reserve2 / reserve1
  {
    MulDiv(amount, reserve2, reserve1)
  }

  /** `x` in, over reserves `r` (in) and `q` (out). */
  function OutOf(x: nat, r: nat, q: nat, fee: Fee): nat
    requires r > 0
  {
    var f := 1000 - fee;
    DivPositive(x * f * q, r * 1000 + x * f);
    x * f * q / (r * 1000 + x * f)
  }

  function Cost(y: nat, r: nat): nat {
    r * y * 1000
  }

  function Room(y: nat, q: nat, fee: Fee): (d: nat)
    requires y <= q
    ensures d > 0 <==> y < q
  {
    MulSign(q - y, 1000 - fee);
    (q - y) * (1000 - fee)
  }

  /** What must be paid in for `y` out. */
  function InFor(y: nat, r: nat, q: nat, fee: Fee): (x: nat)
    requires y < q
    ensures x > 0
  {
    DivPositive(Cost(y, r), Room(y, q, fee));
    Cost(y, r) / Room(y, q, fee) + 1
  }

  function GetAmountOut(amountIn: nat, reserveIn: nat, reserveOut: nat, fee: Fee): (r: Result<nat, AmmError>)
    ensures r.Ok? ==> reserveIn > 0 && reserveOut > 0 && r.value == OutOf(amountIn, reserveIn, reserveOut, fee)
  {
    if reserveIn == 0 || reserveOut == 0 then Err(ZeroLiquidity)
    else
      var amountInWithFee :- CheckedMul(amountIn, 1000 - fee);
      var numerator :- CheckedMul(amountInWithFee, reserveOut);
      var scaled :- CheckedMul(reserveIn, 1000);
      var denominator :- CheckedAdd(scaled, amountInWithFee);
      var result :- CheckedDiv(numerator, denominator);
      ToUnit(result)
  }

  function GetAmountIn(amountOut: nat, reserveIn: nat, reserveOut: nat, fee: Fee): (r: Result<nat, AmmError>)
    ensures r.Ok? ==> reserveIn > 0 && amountOut < reserveOut && r.value == InFor(amountOut, reserveIn, reserveOut, fee)
  {
    if reserveIn == 0 || reserveOut == 0 then Err(ZeroLiquidity)
    else if amountOut >= reserveOut then Err(AmountOutTooHigh)
    else
      var product :- CheckedMul(reserveIn, amountOut);
      var numerator :- CheckedMul(product, 1000);
      var denominator :- CheckedMul(reserveOut - amountOut, 1000 - fee);
      var quotient :- CheckedDiv(numerator, denominator);
      var result :- CheckedAdd(quotient, 1);
      ToUnit(result)
  }

  // ---------- when the checked functions succeed ----------

  lemma MulDivSucceedsIff(a: nat, b: nat, c: nat)
    ensures MulDiv(a, b, c).Ok? <==> c > 0 && a * b <= U256_MAX && a * b < c * (U128_MAX + 1)
    ensures MulDiv(a, b, c).Err? ==> MulDiv(a, b, c) == Err(Overflow)
  {
    if c > 0 {
      DivReaches(a * b, c, U128_MAX + 1);
    }
  }

  /** Amounts within `u128` never overflow a sale, as its result is below the other reserve. */
  lemma AmountOutSucceedsIff(amountIn: nat, reserveIn: nat, reserveOut: nat, fee: Fee)
    ensures GetAmountOut(amountIn, reserveIn, reserveOut, fee).Ok?
       <==> && reserveIn > 0 && reserveOut > 0
            && amountIn * (1000 - fee) <= U256_MAX && amountIn * (1000 - fee) * reserveOut <= U256_MAX
            && reserveIn * 1000 + amountIn * (1000 - fee) <= U256_MAX
            && OutOf(amountIn, reserveIn, reserveOut, fee) <= U128_MAX
  {
    if reserveIn > 0 && reserveOut > 0 {
      MulSign(amountIn, 1000 - fee);
    }
  }

  lemma AmountInSucceedsIff(amountOut: nat, reserveIn: nat, reserveOut: nat, fee: Fee)
    ensures GetAmountIn(amountOut, reserveIn, reserveOut, fee).Ok?
       <==> && reserveIn > 0 && amountOut < reserveOut
            && reserveIn * amountOut * 1000 <= U256_MAX && (reserveOut - amountOut) * (1000 - fee) <= U256_MAX
            && InFor(amountOut, reserveIn, reserveOut, fee) <= U128_MAX
  {
    if reserveIn > 0 && amountOut < reserveOut {
      MulMono(1, 1000, reserveIn * amountOut);
      assert Room(amountOut, reserveOut, fee) > 0;
    }
  }

  /** Splitting a purchase never makes it cheaper either. */
  lemma SplittingCostsMore(x: nat, y: nat, r: nat, q: nat, fee: Fee)
    requires x + y < q
    ensures InFor(x, r, q, fee) + InFor(y, r + InFor(x, r, q, fee), q - x, fee) >= InFor(x + y, r, q, fee)
  {
    var a := InFor(x, r, q, fee);
    var b := InFor(y, r + a, q - x, fee);
    PaymentCovers(x, r, q, fee, a);
    PaymentCovers(y, r + a, q - x, fee, b);
    PaymentCovers(x + y, r, q, fee, a + b);
    hide InFor;
    SplitCost(x, y, r, a, b, q - x - y, 1000 - fee);
  }

  /** Exactly which payments are no less than what must be paid in. */
  lemma PaymentCovers(y: nat, r: nat, q: nat, fee: Fee, x: nat)
    requires y < q
    ensures x >= InFor(y, r, q, fee) <==> x * Room(y, q, fee) > Cost(y, r)
  {
    hide Cost, Room;
    DivReaches(Cost(y, r), Room(y, q, fee), x);
  }

  lemma SplitCost(x: nat, y: nat, r: nat, a: nat, b: nat, z: nat, f: nat)
    requires f <= 1000 && a * ((z + y) * f) > r * x * 1000 && b * (z * f) > (r + a) * y * 1000
    ensures (a + b) * (z * f) > r * (x + y) * 1000
  {
    SumOfProducts(a, b, z * f);
    SumOfProducts(r, a, y);
    SumOfProducts(z, y, f);
    SumOfProducts(z * f, y * f, a);
    SumOfProducts(x, y, r);
    MulAssoc(a, y, f);
    MulMono(f, 1000, a * y);
  }

  // ---------- what a payment buys ----------

  /** Exactly which payments buy at least `y`. */
  lemma BuysAtLeast(x: nat, y: nat, r: nat, q: nat, fee: Fee)
    requires r > 0 && y <= q
    ensures OutOf(x, r, q, fee) >= y <==> x * Room(y, q, fee) >= Cost(y, r)
  {
    hide OutOf;
    OutReaches(x, r, q, fee, y);
    Margin(x, y, r, q, 1000 - fee);
  }

  /** The floor division of a sale, cleared. */
  lemma OutReaches(x: nat, r: nat, q: nat, fee: Fee, y: nat)
    requires r > 0
    ensures OutOf(x, r, q, fee) >= y <==> x * (1000 - fee) * q >= (r * 1000 + x * (1000 - fee)) * y
  {
    MulSign(x, 1000 - fee);
    ReachesIff(x * (1000 - fee) * q, r * 1000 + x * (1000 - fee), y,
               x * (1000 - fee) * q, (r * 1000 + x * (1000 - fee)) * y);
  }

  lemma ReachesIff(n: nat, d: nat, y: nat, paid: int, cost: int)
    requires d > 0 && n - d * y == paid - cost
    ensures n / d >= y <==> paid >= cost
  {
    DivReaches(n, d, y);
  }

  lemma Margin(x: int, y: int, r: int, q: int, f: int)
    ensures x * f * q - (r * 1000 + x * f) * y == x * ((q - y) * f) - r * y * 1000
  {
    SumOfProducts(r * 1000, x * f, y);
    SumOfProducts(q, -y, x * f);
    MulAssoc(x, f, q - y);
    MulAssoc(r, 1000, y);
    MulAssoc(r, y, 1000);
  }

  /** The pool never pays out its reserve. */
  lemma OutBelowReserve(x: nat, r: nat, q: nat, fee: Fee)
    requires r > 0 && q > 0
    ensures OutOf(x, r, q, fee) < q
  {
    BuysAtLeast(x, q, r, q, fee);
    assert r * q * 1000 > 0;
  }

  /** The quoted payment buys what was asked for; two units less never does. */
  lemma QuotedPaymentSuffices(y: nat, r: nat, q: nat, fee: Fee)
    requires r > 0 && y < q
    ensures OutOf(InFor(y, r, q, fee), r, q, fee) >= y
    ensures InFor(y, r, q, fee) >= 2 ==> OutOf(InFor(y, r, q, fee) - 2, r, q, fee) < y
  {
    var x := InFor(y, r, q, fee);
    DivNeighbours(Cost(y, r), Room(y, q, fee));
    BuysAtLeast(x, y, r, q, fee);
    if x >= 2 {
      BuysAtLeast(x - 2, y, r, q, fee);
      DivReaches(Cost(y, r), Room(y, q, fee), 1);
    }
    hide Cost, Room, OutOf;
  }

  /** One unit less than quoted still buys `y` exactly when the quote had nothing to round up. */
  lemma QuoteIsTightUnlessExact(y: nat, r: nat, q: nat, fee: Fee)
    requires r > 0 && y < q
    ensures OutOf(InFor(y, r, q, fee) - 1, r, q, fee) >= y <==> Cost(y, r) % Room(y, q, fee) == 0
  {
    hide Cost, Room, OutOf;
    DivNeighbours(Cost(y, r), Room(y, q, fee));
    BuysAtLeast(InFor(y, r, q, fee) - 1, y, r, q, fee);
  }

  /** Selling `x` and quoting the proceeds back asks for at most one unit more. */
  lemma QuoteInvertsSale(x: nat, r: nat, q: nat, fee: Fee)
    requires r > 0 && q > 0
    ensures OutOf(x, r, q, fee) < q && InFor(OutOf(x, r, q, fee), r, q, fee) <= x + 1
  {
    OutBelowReserve(x, r, q, fee);
    var y := OutOf(x, r, q, fee);
    BuysAtLeast(x, y, r, q, fee);
    hide Cost, Room, OutOf;
    DivReaches(Cost(y, r), Room(y, q, fee), x + 1);
    SumOfProducts(x, 1, Room(y, q, fee));
  }

  /** Selling in two steps never beats selling at once. */
  lemma SplittingNeverGains(x: nat, y: nat, r: nat, q: nat, fee: Fee)
    requires r > 0 && q > 0
    ensures var first := OutOf(x, r, q, fee);
      first < q && first + OutOf(y, r + x, q - first, fee) <= OutOf(x + y, r, q, fee)
  {
    OutBelowReserve(x, r, q, fee);
    var a := OutOf(x, r, q, fee);
    OutBelowReserve(y, r + x, q - a, fee);
    var b := OutOf(y, r + x, q - a, fee);
    var z, f := q - a - b, 1000 - fee;
    BuysAtLeast(x, a, r, q, fee);
    BuysAtLeast(y, b, r + x, q - a, fee);
    SplitSum(x, y, r, a, b, z, f);
    BuysAtLeast(x + y, a + b, r, q, fee);
  }

  lemma SplitSum(x: nat, y: nat, r: nat, a: nat, b: nat, z: nat, f: nat)
    requires f <= 1000
    requires x * ((z + b) * f) >= r * a * 1000 && y * (z * f) >= (r + x) * b * 1000
    ensures (x + y) * (z * f) >= r * (a + b) * 1000
  {
    SumOfProducts(x, y, z * f);
    SumOfProducts(r, x, b);
    SumOfProducts(z, b, f);
    SumOfProducts(z * f, b * f, x);
    SumOfProducts(a, b, r);
    MulAssoc(x, b, f);
    MulMono(f, 1000, x * b);
  }

  // ---------- the product of the reserves ----------

  /** Selling `x` never lowers the product of the reserves. */
  lemma SaleKeepsProduct(x: nat, r: nat, q: nat, fee: Fee)
    requires r > 0 && q > 0
    ensures OutOf(x, r, q, fee) < q && (r + x) * (q - OutOf(x, r, q, fee)) >= r * q
  {
    OutBelowReserve(x, r, q, fee);
    var y := OutOf(x, r, q, fee);
    BuysAtLeast(x, y, r, q, fee);
    PaidEnough(x, y, r, q, 1000 - fee);
  }

  /** Buying `y` never lowers the product of the reserves. */
  lemma PurchaseKeepsProduct(y: nat, r: nat, q: nat, fee: Fee)
    requires r > 0 && y < q
    ensures (r + InFor(y, r, q, fee)) * (q - y) >= r * q
  {
    var x := InFor(y, r, q, fee);
    QuotedPaymentSuffices(y, r, q, fee);
    BuysAtLeast(x, y, r, q, fee);
    PaidEnough(x, y, r, q, 1000 - fee);
  }

  lemma PaidEnough(x: nat, y: nat, r: nat, q: nat, f: nat)
    requires y < q && 0 < f <= 1000 && x * ((q - y) * f) >= r * y * 1000
    ensures (r + x) * (q - y) >= r * q
  {
    MulMono(f, 1000, x * (q - y));
    assert x * ((q - y) * f) == x * (q - y) * f;
    MulCancel(r * y, x * (q - y), 1000);
    assert (r + x) * (q - y) == r * q - r * y + x * (q - y);
  }

  /** The payment quoted grows with the amount bought. */
  lemma QuoteGrows(y: nat, y': nat, r: nat, q: nat, fee: Fee)
    requires y <= y' < q
    ensures InFor(y, r, q, fee) <= InFor(y', r, q, fee)
  {
    MulMono(y, y', r * 1000);
    MulMono(q - y', q - y, 1000 - fee);
    assert r * y * 1000 == y * (r * 1000) && r * y' * 1000 == y' * (r * 1000);
    DivMono(Cost(y, r), Room(y, q, fee), Cost(y', r), Room(y', q, fee));
  }
}

/**
  Liquidity provision: deposits, withdrawals and swaps on the pool's two reserves and its share supply.

  Here is the pool alone; who pays and who holds the shares is in `Markets`. The shares minted to the pool account on
  the first deposit stay there, so at most `supply - MINT_MIN_LIQUIDITY` shares can ever be burnt. In every reachable
  market that follows from what the accounts hold (`MarketSafety.HoldersCanBurn`).
 */
module Liquidity {
  import opened Arithmetic
  import opened Amm
  import opened Wrappers

  const MINT_MIN_LIQUIDITY: nat := 100

  datatype Pool = Pool(base: nat, quote: nat, supply: nat)

  /** Fee and the minimum balances of the two assets. */
  datatype Terms = Terms(fee: Fee, baseMinimum: nat, quoteMinimum: nat)

  datatype LiquidityError =
    | Arithmetic(error: AmmError)
    | WrongDesiredAmount
    | AssetOneDepositDidNotMeetMinimum
    | AssetTwoDepositDidNotMeetMinimum
    | OptimalAmountLessThanDesired
    | AmountOneLessThanMinimal
    | AmountTwoLessThanMinimal
    | InsufficientLiquidityMinted
    | ZeroLiquidityBurnt
    | AssetOneWithdrawalDidNotMeetMinimum
    | AssetTwoWithdrawalDidNotMeetMinimum
    | ReserveLeftLessThanMinimal
    | NotEnoughShares
    | ZeroAmount
    | NotExpendable

  function Lift<T>(r: Result<T, AmmError>): Result<T, LiquidityError> {
    match r
    case Ok(v) => Ok(v)
    case Err(e) => Err(Arithmetic(e))
  }

  function Min(a: nat, b: nat): nat {
    if a <= b then a else b
  }

  function IntegerSqrt(n: nat): (r: nat)
    ensures r * r <= n < (r + 1) * (r + 1)
  {
    if n == 0 then 0
    else
      var half := IntegerSqrt(n / 4);
      SqrtStep(n, half);
      if (2 * half + 1) * (2 * half + 1) <= n then 2 * half + 1 else 2 * half
  }

  lemma SqrtStep(n: nat, half: nat)
    requires half * half <= n / 4 < (half + 1) * (half + 1)
    ensures (2 * half) * (2 * half) <= n < (2 * half + 2) * (2 * half + 2)
  {
    assert (2 * half) * (2 * half) == 4 * (half * half);
    assert (2 * half + 2) * (2 * half + 2) == 4 * ((half + 1) * (half + 1));
  }

  // ---------- depositing ----------

  /** The amounts actually taken: the desired ones, cut to the reserves' ratio. */
  function DepositAmounts(p: Pool, baseDesired: nat, quoteDesired: nat, baseMin: nat, quoteMin: nat)
    : Result<(nat, nat), LiquidityError>
  {
    if p.base == 0 || p.quote == 0 then Ok((baseDesired, quoteDesired))
    else
      var quoteOptimal :- Lift(Quote(baseDesired, p.base, p.quote));
      if quoteOptimal <= quoteDesired then
        if quoteOptimal < quoteMin then Err(AssetTwoDepositDidNotMeetMinimum)
        else Ok((baseDesired, quoteOptimal))
      else
        var baseOptimal :- Lift(Quote(quoteDesired, p.quote, p.base));
        if baseOptimal > baseDesired then Err(OptimalAmountLessThanDesired)
        else if baseOptimal < baseMin then Err(AssetOneDepositDidNotMeetMinimum)
        else Ok((baseOptimal, quoteDesired))
  }

  function SharesForFirstDeposit(amount1: nat, amount2: nat): Result<nat, LiquidityError> {
    var product :- Lift(CheckedMul(amount1, amount2));
    var root := IntegerSqrt(product);
    if root < MINT_MIN_LIQUIDITY then Err(InsufficientLiquidityMinted)
    else Lift(ToUnit(root - MINT_MIN_LIQUIDITY))
  }

  /** Shares minted to the depositor. */
  function SharesFor(p: Pool, amount1: nat, amount2: nat): Result<nat, LiquidityError> {
    if p.supply == 0 then SharesForFirstDeposit(amount1, amount2)
    else
      var side1 :- Lift(MulDiv(amount1, p.supply, p.base));
      var side2 :- Lift(MulDiv(amount2, p.supply, p.quote));
      Ok(Min(side1, side2))
  }

  datatype Deposit = Deposit(pool: Pool, base: nat, quote: nat, minted: nat)

  /** The amounts a deposit takes from the depositor, before any shares are minted. */
  function TakenAmounts(t: Terms, p: Pool, baseDesired: nat, quoteDesired: nat, baseMin: nat, quoteMin: nat)
    : Result<(nat, nat), LiquidityError>
  {
    if baseDesired == 0 || quoteDesired == 0 then Err(WrongDesiredAmount)
    else
      var (base, quote) :- DepositAmounts(p, baseDesired, quoteDesired, baseMin, quoteMin);
      if base + p.base < t.baseMinimum then Err(AmountOneLessThanMinimal)
      else if quote + p.quote < t.quoteMinimum then Err(AmountTwoLessThanMinimal)
      else Ok((base, quote))
  }

  /** The shares minted for them. */
  function MintedFor(p: Pool, base: nat, quote: nat): Result<nat, LiquidityError> {
    var minted :- SharesFor(p, base, quote);
    if minted <= MINT_MIN_LIQUIDITY then Err(InsufficientLiquidityMinted) else Ok(minted)
  }

  /** The pool after a deposit; the first one also locks the minimum of shares. */
  function Deposited(p: Pool, base: nat, quote: nat, minted: nat): Pool {
    var locked := if p.supply == 0 then MINT_MIN_LIQUIDITY else 0;
    Pool(p.base + base, p.quote + quote, p.supply + locked + minted)
  }

  function AddLiquidity(t: Terms, p: Pool, baseDesired: nat, quoteDesired: nat, baseMin: nat, quoteMin: nat)
    : Result<Deposit, LiquidityError>
  {
    var (base, quote) :- TakenAmounts(t, p, baseDesired, quoteDesired, baseMin, quoteMin);
    var minted :- MintedFor(p, base, quote);
    Ok(Deposit(Deposited(p, base, quote, minted), base, quote, minted))
  }

  // ---------- withdrawing ----------

  datatype Withdrawal = Withdrawal(pool: Pool, base: nat, quote: nat)

  /** What `burn` shares redeem after the fee. */
  function Redeemable(burn: nat, withdrawalFee: nat): nat {
    if withdrawalFee <= burn then burn - withdrawalFee else 0
  }

  /** `withdrawalFee` is the fee taken, in shares. */
  function RemoveLiquidity(t: Terms, p: Pool, burn: nat, withdrawalFee: nat, baseMin: nat, quoteMin: nat)
    : Result<Withdrawal, LiquidityError>
  {
    if burn == 0 then Err(ZeroLiquidityBurnt)
    else
      var redeem := Redeemable(burn, withdrawalFee);
      var base :- Lift(MulDiv(redeem, p.base, p.supply));
      var quote :- Lift(MulDiv(redeem, p.quote, p.supply));
      if base == 0 || base < baseMin then Err(AssetOneWithdrawalDidNotMeetMinimum)
      else if quote == 0 || quote < quoteMin then Err(AssetTwoWithdrawalDidNotMeetMinimum)
      else if p.base < base + t.baseMinimum || p.quote < quote + t.quoteMinimum then Err(ReserveLeftLessThanMinimal)
      else if burn + MINT_MIN_LIQUIDITY > p.supply then Err(NotEnoughShares)
      else Ok(Withdrawal(Pool(p.base - base, p.quote - quote, p.supply - burn), base, quote))
  }

  // ---------- swapping ----------

  /** Which asset the trader pays in. */
  datatype Paying = Base | Quoted

  /** The reserves after `paid` comes in on one side and `taken` leaves on the other, which must keep its minimum. */
  function Exchange(t: Terms, p: Pool, paying: Paying, paid: nat, taken: nat): Result<Pool, LiquidityError> {
    match paying
    case Base =>
      if p.quote < taken + t.quoteMinimum then Err(NotExpendable)
      else Ok(p.(base := p.base + paid, quote := p.quote - taken))
    case Quoted =>
      if p.base < taken + t.baseMinimum then Err(NotExpendable)
      else Ok(p.(base := p.base - taken, quote := p.quote + paid))
  }

  function SwapExactIn(t: Terms, p: Pool, paying: Paying, amountIn: nat): Result<(Pool, nat), LiquidityError> {
    if amountIn == 0 then Err(ZeroAmount)
    else
      var (reserveIn, reserveOut) := if paying == Base then (p.base, p.quote) else (p.quote, p.base);
      var amountOut :- Lift(GetAmountOut(amountIn, reserveIn, reserveOut, t.fee));
      var after :- Exchange(t, p, paying, amountIn, amountOut);
      Ok((after, amountOut))
  }

  function SwapExactOut(t: Terms, p: Pool, paying: Paying, amountOut: nat): Result<(Pool, nat), LiquidityError> {
    if amountOut == 0 then Err(ZeroAmount)
    else
      var (reserveIn, reserveOut) := if paying == Base then (p.base, p.quote) else (p.quote, p.base);
      var amountIn :- Lift(GetAmountIn(amountOut, reserveIn, reserveOut, t.fee));
      var after :- Exchange(t, p, paying, amountIn, amountOut);
      Ok((after, amountIn))
  }

  // ---------- deposits against withdrawals ----------

  /** The second branch of the ratio cut never asks for more base than desired. */
  lemma OptimalNeverExceedsDesired(p: Pool, baseDesired: nat, quoteDesired: nat, baseMin: nat, quoteMin: nat)
    ensures DepositAmounts(p, baseDesired, quoteDesired, baseMin, quoteMin) != Err(OptimalAmountLessThanDesired)
    ensures DepositAmounts(p, baseDesired, quoteDesired, baseMin, quoteMin).Ok? ==>
      var (base, quote) := DepositAmounts(p, baseDesired, quoteDesired, baseMin, quoteMin).value;
      base <= baseDesired && quote <= quoteDesired
  {
    if p.base > 0 && p.quote > 0 && Quote(baseDesired, p.base, p.quote).Ok? {
      var quoteOptimal := Quote(baseDesired, p.base, p.quote).value;
      if quoteOptimal > quoteDesired && Quote(quoteDesired, p.quote, p.base).Ok? {
        DivReaches(baseDesired * p.quote, p.base, quoteDesired + 1);
        DivReaches(quoteDesired * p.base, p.quote, baseDesired + 1);
        SumOfProducts(quoteDesired, 1, p.base);
        SumOfProducts(baseDesired, 1, p.quote);
      }
    }
  }

  /** All of the desired base can be matched by the desired quote, at the reserves' ratio rounded down. */
  predicate BaseFits(p: Pool, baseDesired: nat, quoteDesired: nat) {
    baseDesired * p.quote < (quoteDesired + 1) * p.base
  }

  /**
    What a deposit takes: all desired without reserves; else all of one desired amount and the other at the reserves'
    ratio, rounded down. It fails exactly when that amount overflows or misses its minimum.
   */
  lemma AmountsKeepRatio(p: Pool, baseDesired: nat, quoteDesired: nat, baseMin: nat, quoteMin: nat)
    requires quoteDesired <= U128_MAX && baseDesired <= U128_MAX
    ensures var amounts := DepositAmounts(p, baseDesired, quoteDesired, baseMin, quoteMin);
      if p.base == 0 || p.quote == 0 then amounts == Ok((baseDesired, quoteDesired))
      else if BaseFits(p, baseDesired, quoteDesired) then
        if baseDesired * p.quote > U256_MAX then amounts == Err(Arithmetic(Overflow))
        else if baseDesired * p.quote / p.base < quoteMin then amounts == Err(AssetTwoDepositDidNotMeetMinimum)
        else amounts == Ok((baseDesired, baseDesired * p.quote / p.base))
      else
        if !MulDiv(baseDesired, p.quote, p.base).Ok? || quoteDesired * p.base > U256_MAX then
          amounts == Err(Arithmetic(Overflow))
        else if quoteDesired * p.base / p.quote < baseMin then amounts == Err(AssetOneDepositDidNotMeetMinimum)
        else amounts == Ok((quoteDesired * p.base / p.quote, quoteDesired))
  {
    if p.base > 0 && p.quote > 0 {
      hide DepositAmounts, BaseFits, MulDiv;
      if BaseFits(p, baseDesired, quoteDesired) {
        AmountsWithAllBase(p, baseDesired, quoteDesired, baseMin, quoteMin);
      } else {
        AmountsWithAllQuote(p, baseDesired, quoteDesired, baseMin, quoteMin);
      }
    }
  }

  lemma AmountsWithAllBase(p: Pool, baseDesired: nat, quoteDesired: nat, baseMin: nat, quoteMin: nat)
    requires quoteDesired <= U128_MAX && p.base > 0 && p.quote > 0 && BaseFits(p, baseDesired, quoteDesired)
    ensures var amounts := DepositAmounts(p, baseDesired, quoteDesired, baseMin, quoteMin);
      if baseDesired * p.quote > U256_MAX then amounts == Err(Arithmetic(Overflow))
      else if baseDesired * p.quote / p.base < quoteMin then amounts == Err(AssetTwoDepositDidNotMeetMinimum)
      else amounts == Ok((baseDesired, baseDesired * p.quote / p.base))
  {
    QuoteWithin(baseDesired, p.base, p.quote, quoteDesired);
    hide Quote, MulDiv;
  }

  lemma AmountsWithAllQuote(p: Pool, baseDesired: nat, quoteDesired: nat, baseMin: nat, quoteMin: nat)
    requires quoteDesired <= U128_MAX && baseDesired <= U128_MAX
    requires p.base > 0 && p.quote > 0 && !BaseFits(p, baseDesired, quoteDesired)
    ensures var amounts := DepositAmounts(p, baseDesired, quoteDesired, baseMin, quoteMin);
      if !MulDiv(baseDesired, p.quote, p.base).Ok? || quoteDesired * p.base > U256_MAX then
        amounts == Err(Arithmetic(Overflow))
      else if quoteDesired * p.base / p.quote < baseMin then amounts == Err(AssetOneDepositDidNotMeetMinimum)
      else amounts == Ok((quoteDesired * p.base / p.quote, quoteDesired))
  {
    OptimalNeverExceedsDesired(p, baseDesired, quoteDesired, baseMin, quoteMin);
    QuoteWithin(baseDesired, p.base, p.quote, quoteDesired);
    CutFits(p.base, p.quote, baseDesired, quoteDesired);
    QuoteWithin(quoteDesired, p.quote, p.base, U128_MAX);
    hide Quote, MulDiv;
  }

  /** A quote by its bound: whether it is within `most`, and that it then fails only for the wide product. */
  lemma QuoteWithin(amount: nat, reserve1: nat, reserve2: nat, most: nat)
    requires reserve1 > 0 && most <= U128_MAX
    ensures var r := Quote(amount, reserve1, reserve2);
      && r == MulDiv(amount, reserve2, reserve1) && (r.Err? ==> r == Err(Overflow))
      && (r.Ok? ==> r.value == amount * reserve2 / reserve1)
      && (amount * reserve2 / reserve1 <= most <==> amount * reserve2 < (most + 1) * reserve1)
      && (amount * reserve2 / reserve1 <= most ==> (r.Ok? <==> amount * reserve2 <= U256_MAX))
  {
    MulDivSucceedsIff(amount, reserve2, reserve1);
    DivReaches(amount * reserve2, reserve1, most + 1);
    DivReaches(amount * reserve2, reserve1, U128_MAX + 1);
    hide MulDiv;
  }

  /** When the desired base does not fit, the cut one is in range. */
  lemma CutFits(base: nat, quote: nat, baseDesired: nat, quoteDesired: nat)
    requires base > 0 && quote > 0 && baseDesired * quote >= (quoteDesired + 1) * base && baseDesired <= U128_MAX
    ensures quoteDesired * base / quote <= U128_MAX
  {
    MulMono(baseDesired, U128_MAX, quote);
    SumOfProducts(quoteDesired, 1, base);
    DivReaches(quoteDesired * base, quote, U128_MAX + 1);
    SumOfProducts(U128_MAX, 1, quote);
  }

  /** Shares of a later deposit are as many as what was paid for them covers: one more would claim too much. */
  lemma SharesAreMost(p: Pool, amount1: nat, amount2: nat)
    requires p.supply > 0 && SharesFor(p, amount1, amount2).Ok?
    ensures var s := SharesFor(p, amount1, amount2).value;
      (s + 1) * p.base > amount1 * p.supply || (s + 1) * p.quote > amount2 * p.supply
  {
    var s := SharesFor(p, amount1, amount2).value;
    DivReaches(amount1 * p.supply, p.base, s + 1);
    DivReaches(amount2 * p.supply, p.quote, s + 1);
  }

  /** Exactly when shares are minted for a deposit, and that a first deposit locks its minimum. */
  lemma MintsIff(p: Pool, base: nat, quote: nat)
    ensures MintedFor(p, base, quote).Ok?
       <==> if p.supply == 0 then
              && base * quote <= U256_MAX
              && 2 * MINT_MIN_LIQUIDITY < IntegerSqrt(base * quote) <= U128_MAX + MINT_MIN_LIQUIDITY
            else
              && MulDiv(base, p.supply, p.base).Ok? && MulDiv(quote, p.supply, p.quote).Ok?
              && base * p.supply >= p.base * (MINT_MIN_LIQUIDITY + 1)
              && quote * p.supply >= p.quote * (MINT_MIN_LIQUIDITY + 1)
  {
    hide IntegerSqrt, MulDiv;
    if p.supply > 0 && MulDiv(base, p.supply, p.base).Ok? && MulDiv(quote, p.supply, p.quote).Ok? {
      DivReaches(base * p.supply, p.base, MINT_MIN_LIQUIDITY + 1);
      DivReaches(quote * p.supply, p.quote, MINT_MIN_LIQUIDITY + 1);
    }
  }

  /** Shares minted later are worth no more than what was paid for them, on either side. */
  lemma SharesAreCovered(p: Pool, amount1: nat, amount2: nat)
    requires p.supply > 0 && SharesFor(p, amount1, amount2).Ok?
    ensures SharesFor(p, amount1, amount2).value * p.base <= amount1 * p.supply
    ensures SharesFor(p, amount1, amount2).value * p.quote <= amount2 * p.supply
  {
    var s := SharesFor(p, amount1, amount2).value;
    DivReaches(amount1 * p.supply, p.base, s);
    DivReaches(amount2 * p.supply, p.quote, s);
  }

  /** What a withdrawal pays: the redeemed part of each reserve, rounded down. */
  lemma WithdrawalPays(t: Terms, p: Pool, burn: nat, withdrawalFee: nat, baseMin: nat, quoteMin: nat)
    ensures var w := RemoveLiquidity(t, p, burn, withdrawalFee, baseMin, quoteMin);
      w.Ok? ==>
        var redeem := Redeemable(burn, withdrawalFee);
        && redeem <= burn <= p.supply && p.supply > 0
        && w.value.base == redeem * p.base / p.supply && w.value.quote == redeem * p.quote / p.supply
  {
    hide MulDiv;
  }

  /** Depositing and withdrawing all that was minted returns no more of either asset. */
  lemma DepositThenWithdraw(t: Terms, p: Pool, baseDesired: nat, quoteDesired: nat, baseMin: nat, quoteMin: nat,
      withdrawalFee: nat, baseMin': nat, quoteMin': nat)
    requires p.supply > 0 || (p.base == 0 && p.quote == 0)
    ensures AddLiquidity(t, p, baseDesired, quoteDesired, baseMin, quoteMin).Ok? ==>
      var d := AddLiquidity(t, p, baseDesired, quoteDesired, baseMin, quoteMin).value;
      var w := RemoveLiquidity(t, d.pool, d.minted, withdrawalFee, baseMin', quoteMin');
      w.Ok? ==> w.value.base <= d.base && w.value.quote <= d.quote
  {
    hide TakenAmounts, SharesFor, RemoveLiquidity;
    if AddLiquidity(t, p, baseDesired, quoteDesired, baseMin, quoteMin).Ok? {
      var d := AddLiquidity(t, p, baseDesired, quoteDesired, baseMin, quoteMin).value;
      if RemoveLiquidity(t, d.pool, d.minted, withdrawalFee, baseMin', quoteMin').Ok? {
        var redeem := Redeemable(d.minted, withdrawalFee);
        WithdrawalPays(t, d.pool, d.minted, withdrawalFee, baseMin', quoteMin');
        if p.supply > 0 {
          SharesAreCovered(p, d.base, d.quote);
        }
        Redeemed(p.base, d.base, p.supply, d.pool.supply, d.minted, redeem);
        Redeemed(p.quote, d.quote, p.supply, d.pool.supply, d.minted, redeem);
      }
    }
  }

  lemma Redeemed(reserve: nat, paid: nat, supply: nat, supply': nat, minted: nat, redeem: nat)
    requires supply' >= supply + minted && supply' > 0 && redeem <= minted
    requires minted * reserve <= paid * supply
    ensures redeem * (reserve + paid) / supply' <= paid
  {
    MulMono(redeem, minted, reserve + paid);
    SumOfProducts(reserve, paid, minted);
    MulMono(supply + minted, supply', paid);
    SumOfProducts(supply, minted, paid);
    DivReaches(redeem * (reserve + paid), supply', paid + 1);
    SumOfProducts(paid, 1, supply');
  }

  /**
    The depositor of `amount` into a pool without shares would get back more of an asset of which the pool holds
    `reserve`: their part of that reserve exceeds what the shares that stay behind, locked or taken as the fee,
    keep of the deposit. `total` is the supply after the deposit.
   */
  predicate FirstDepositGains(reserve: nat, amount: nat, total: nat, withdrawalFee: nat)
  {
    && total >= MINT_MIN_LIQUIDITY
    && var redeem := Redeemable(total - MINT_MIN_LIQUIDITY, withdrawalFee);
      redeem * reserve >= amount * (total - redeem) + total
  }

  lemma FirstDepositSupply(p: Pool, base: nat, quote: nat)
    requires p.supply == 0 && MintedFor(p, base, quote).Ok?
    ensures var total := IntegerSqrt(base * quote);
      && total >= MINT_MIN_LIQUIDITY && MintedFor(p, base, quote).value == total - MINT_MIN_LIQUIDITY
      && Deposited(p, base, quote, total - MINT_MIN_LIQUIDITY).supply == total
  {
    hide IntegerSqrt;
  }

  /** Exactly when a withdrawal goes through. */
  lemma WithdrawsIff(t: Terms, p: Pool, burn: nat, withdrawalFee: nat, baseMin: nat, quoteMin: nat)
    ensures RemoveLiquidity(t, p, burn, withdrawalFee, baseMin, quoteMin).Ok?
       <==> var redeem := Redeemable(burn, withdrawalFee);
            && burn > 0 && MulDiv(redeem, p.base, p.supply).Ok? && MulDiv(redeem, p.quote, p.supply).Ok?
            && var (base, quote) := (redeem * p.base / p.supply, redeem * p.quote / p.supply);
            && base > 0 && base >= baseMin && quote > 0 && quote >= quoteMin
            && p.base >= base + t.baseMinimum && p.quote >= quote + t.quoteMinimum
            && p.supply >= burn + MINT_MIN_LIQUIDITY
  {
    hide CheckedMul, CheckedDiv, ToUnit;
  }

  lemma FirstRoundTrip(t: Terms, p: Pool, base: nat, quote: nat, withdrawalFee: nat, baseMin: nat, quoteMin: nat)
    requires p.supply == 0 && MintedFor(p, base, quote).Ok?
    ensures var minted, total := MintedFor(p, base, quote).value, IntegerSqrt(base * quote);
      var w := RemoveLiquidity(t, Deposited(p, base, quote, minted), minted, withdrawalFee, baseMin, quoteMin);
      w.Ok? ==>
        && (w.value.base > base <==> FirstDepositGains(p.base, base, total, withdrawalFee))
        && (w.value.quote > quote <==> FirstDepositGains(p.quote, quote, total, withdrawalFee))
  {
    FirstDepositSupply(p, base, quote);
    hide IntegerSqrt, MintedFor, RemoveLiquidity, FirstDepositGains;
    var total := IntegerSqrt(base * quote);
    var minted := total - MINT_MIN_LIQUIDITY;
    var pool := Deposited(p, base, quote, minted);
    WithdrawalPays(t, pool, minted, withdrawalFee, baseMin, quoteMin);
    GainsOf(p.base, base, total, withdrawalFee);
    GainsOf(p.quote, quote, total, withdrawalFee);
  }

  lemma GainsOf(reserve: nat, amount: nat, total: nat, withdrawalFee: nat)
    requires total >= MINT_MIN_LIQUIDITY
    ensures Redeemable(total - MINT_MIN_LIQUIDITY, withdrawalFee) * (reserve + amount) / total > amount
       <==> FirstDepositGains(reserve, amount, total, withdrawalFee)
  {
    GainIff(reserve, amount, total, Redeemable(total - MINT_MIN_LIQUIDITY, withdrawalFee));
  }

  /** Withdrawing all that deposit `d` into `p` minted returns more exactly when `p` had reserves and no shares. */
  ghost predicate GainsOnlyFromReserves(t: Terms, p: Pool, d: Deposit, withdrawalFee: nat, baseMin: nat,
      quoteMin: nat)
  {
    var w := RemoveLiquidity(t, d.pool, d.minted, withdrawalFee, baseMin, quoteMin);
    var total := IntegerSqrt(d.base * d.quote);
    w.Ok? ==>
      && (w.value.base > d.base <==> p.supply == 0 && FirstDepositGains(p.base, d.base, total, withdrawalFee))
      && (w.value.quote > d.quote <==> p.supply == 0 && FirstDepositGains(p.quote, d.quote, total, withdrawalFee))
  }

  /**
    Exactly when a deposit followed by the withdrawal of all it minted returns more than was paid in, in terms of
    the pool and the amounts before the deposit: the pool has no shares yet, and reserves that outweigh what the
    locked shares and the fee keep. The amounts are the desired ones cut to the reserves' ratio.
   */
  lemma DepositorGainsIff(t: Terms, p: Pool, baseDesired: nat, quoteDesired: nat, baseMin: nat, quoteMin: nat,
      withdrawalFee: nat, baseMin': nat, quoteMin': nat)
    ensures var amounts := DepositAmounts(p, baseDesired, quoteDesired, baseMin, quoteMin);
      var deposit := AddLiquidity(t, p, baseDesired, quoteDesired, baseMin, quoteMin);
      deposit.Ok? ==>
        && amounts.Ok? && deposit.value.base == amounts.value.0 && deposit.value.quote == amounts.value.1
        && GainsOnlyFromReserves(t, p, deposit.value, withdrawalFee, baseMin', quoteMin')
  {
    hide DepositAmounts, MintedFor, RemoveLiquidity, IntegerSqrt, FirstDepositGains;
    var deposit := AddLiquidity(t, p, baseDesired, quoteDesired, baseMin, quoteMin);
    if deposit.Ok? {
      if p.supply > 0 {
        DepositThenWithdraw(t, p, baseDesired, quoteDesired, baseMin, quoteMin, withdrawalFee, baseMin', quoteMin');
      } else {
        FirstRoundTrip(t, p, deposit.value.base, deposit.value.quote, withdrawalFee, baseMin', quoteMin');
      }
    }
  }

  lemma GainIff(reserve: nat, paid: nat, supply: nat, redeem: nat)
    requires redeem <= supply && supply > 0
    ensures redeem * (reserve + paid) / supply > paid <==> redeem * reserve >= paid * (supply - redeem) + supply
  {
    DivReaches(redeem * (reserve + paid), supply, paid + 1);
    SumOfProducts(reserve, paid, redeem);
    SumOfProducts(paid, 1, supply);
    SumOfProducts(redeem, supply - redeem, paid);
  }

  /** Reserves sent to the pool before its first deposit belong to the first depositor. */
  lemma FirstDepositorCollectsDonations()
    ensures var t := Terms(3, 1, 1);
      var d := AddLiquidity(t, Pool(1000, 1000, 0), 1000, 1000, 0, 0);
      && d.Ok? && d.value.base == 1000
      && var w := RemoveLiquidity(t, d.value.pool, d.value.minted, 0, 0, 0);
         w.Ok? && w.value.base == 1800
  {
    assert DepositAmounts(Pool(1000, 1000, 0), 1000, 1000, 0, 0) == Ok((1000, 1000)) by {
      assert 1000 * 1000 / 1000 == 1000;
    }
    assert IntegerSqrt(1000 * 1000) == 1000 by {
      SqrtOfSquare(1000);
    }
    assert SharesForFirstDeposit(1000, 1000) == Ok(900);
    assert MulDiv(900, 2000, 1000) == Ok(1800);
    hide DepositAmounts, SharesForFirstDeposit, MulDiv;
  }

  lemma SqrtOfSquare(n: nat)
    ensures IntegerSqrt(n * n) == n
  {
    RootIsUnique(IntegerSqrt(n * n), n);
  }

  lemma RootIsUnique(r: nat, n: nat)
    requires r * r <= n * n < (r + 1) * (r + 1)
    ensures r == n
  {
    if r < n {
      MulMono(r + 1, n, r + 1);
      MulMono(r + 1, n, n);
    } else if r > n {
      MulMono(n, r, n);
      MulMono(n + 1, r, r);
      SumOfProducts(n, 1, r);
    }
  }

  // ---------- whole runs ----------

  datatype Op =
    | Add(baseDesired: nat, quoteDesired: nat, baseMin: nat, quoteMin: nat)
    | Remove(burn: nat, withdrawalFee: nat, baseMin: nat, quoteMin: nat)
    | ExactIn(paying: Paying, amountIn: nat)
    | ExactOut(paying: Paying, amountOut: nat)
    | Donate(base: nat, quote: nat)

  /** One call on the pool, or a direct transfer to its account. A failed call changes nothing. */
  function Apply(t: Terms, p: Pool, op: Op): Pool {
    match op
    case Add(b, q, bMin, qMin) =>
      (match AddLiquidity(t, p, b, q, bMin, qMin) case Ok(d) => d.pool case Err(_) => p)
    case Remove(burn, fee, bMin, qMin) =>
      (match RemoveLiquidity(t, p, burn, fee, bMin, qMin) case Ok(w) => w.pool case Err(_) => p)
    case ExactIn(paying, x) =>
      (match SwapExactIn(t, p, paying, x) case Ok(r) => r.0 case Err(_) => p)
    case ExactOut(paying, y) =>
      (match SwapExactOut(t, p, paying, y) case Ok(r) => r.0 case Err(_) => p)
    case Donate(b, q) => Pool(p.base + b, p.quote + q, p.supply)
  }

  /** The reserves' product per squared share in `p'` is at least that in `p`. */
  ghost predicate WorthAtLeast(p': Pool, p: Pool) {
    p'.base * p'.quote * (p.supply * p.supply) >= p.base * p.quote * (p'.supply * p'.supply)
  }

  /** Shares are backed by the geometric mean of the reserves, and the locked ones are there. */
  ghost predicate Backed(p: Pool) {
    && p.supply * p.supply <= p.base * p.quote
    && (p.supply > 0 ==> p.supply >= MINT_MIN_LIQUIDITY && p.base > 0 && p.quote > 0)
  }

  lemma ScaledProducts(b: nat, q: nat, s: nat, b': nat, q': nat, s': nat)
    requires b' * s >= b * s' && q' * s >= q * s'
    ensures b' * q' * (s * s) >= b * q * (s' * s')
  {
    calc {
      b' * q' * (s * s);
    == { Regroup(b', q', s); }
      (b' * s) * (q' * s);
    >= { MulMono(b * s', b' * s, q' * s); }
      (b * s') * (q' * s);
    >= { MulMono(q * s', q' * s, b * s'); }
      (b * s') * (q * s');
    == { Regroup(b, q, s'); }
      b * q * (s' * s');
    }
  }

  lemma Regroup(a: nat, b: nat, c: nat)
    ensures a * b * (c * c) == (a * c) * (b * c)
  {
    assert a * b * (c * c) == a * (b * c) * c;
    assert a * (b * c) * c == (a * c) * (b * c);
  }

  /** Shares that claim no more than was paid for them dilute nobody. */
  lemma PaidSharesDilute(b: nat, q: nat, s: nat, b': nat, q': nat, minted: nat)
    requires minted * b <= b' * s && minted * q <= q' * s
    ensures (b + b') * (q + q') * (s * s) >= b * q * ((s + minted) * (s + minted))
  {
    SumOfProducts(b, b', s);
    SumOfProducts(s, minted, b);
    SumOfProducts(q, q', s);
    SumOfProducts(s, minted, q);
    ScaledProducts(b, q, s, b + b', q + q', s + minted);
  }

  lemma AddRaisesWorth(t: Terms, p: Pool, baseDesired: nat, quoteDesired: nat, baseMin: nat, quoteMin: nat)
    requires p.supply > 0 && AddLiquidity(t, p, baseDesired, quoteDesired, baseMin, quoteMin).Ok?
    ensures WorthAtLeast(AddLiquidity(t, p, baseDesired, quoteDesired, baseMin, quoteMin).value.pool, p)
  {
    hide TakenAmounts, SharesFor;
    var d := AddLiquidity(t, p, baseDesired, quoteDesired, baseMin, quoteMin).value;
    SharesAreCovered(p, d.base, d.quote);
    PaidSharesDilute(p.base, p.quote, p.supply, d.base, d.quote, d.minted);
  }

  lemma PaidOut(reserve: nat, supply: nat, burn: nat, redeem: nat)
    requires 0 < supply && redeem <= burn <= supply && redeem * reserve / supply <= reserve
    ensures (reserve - redeem * reserve / supply) * supply >= reserve * (supply - burn)
  {
    var out := redeem * reserve / supply;
    DivBounds(redeem * reserve, supply);
    MulMono(redeem, burn, reserve);
    SumOfProducts(reserve - out, out, supply);
    SumOfProducts(supply - burn, burn, reserve);
  }

  lemma RemoveRaisesWorth(t: Terms, p: Pool, burn: nat, withdrawalFee: nat, baseMin: nat, quoteMin: nat)
    requires RemoveLiquidity(t, p, burn, withdrawalFee, baseMin, quoteMin).Ok?
    ensures WorthAtLeast(RemoveLiquidity(t, p, burn, withdrawalFee, baseMin, quoteMin).value.pool, p)
  {
    var w := RemoveLiquidity(t, p, burn, withdrawalFee, baseMin, quoteMin).value;
    var redeem := Redeemable(burn, withdrawalFee);
    PaidOut(p.base, p.supply, burn, redeem);
    PaidOut(p.quote, p.supply, burn, redeem);
    ScaledProducts(p.base, p.quote, p.supply, w.pool.base, w.pool.quote, w.pool.supply);
  }

  /** A larger product at the same supply is worth at least as much. */
  lemma ProductRaisesWorth(p: Pool, p': Pool)
    requires p'.supply == p.supply && p'.base * p'.quote >= p.base * p.quote
    ensures WorthAtLeast(p', p)
  {
    MulMono(p.base * p.quote, p'.base * p'.quote, p.supply * p.supply);
  }

  lemma SaleRaisesProduct(t: Terms, p: Pool, paying: Paying, amount: nat)
    requires SwapExactIn(t, p, paying, amount).Ok?
    ensures var after := SwapExactIn(t, p, paying, amount).value.0;
      after.base * after.quote >= p.base * p.quote && after.supply == p.supply
  {
    hide OutOf;
    if paying == Base {
      SaleKeepsProduct(amount, p.base, p.quote, t.fee);
    } else {
      SaleKeepsProduct(amount, p.quote, p.base, t.fee);
    }
  }

  lemma PurchaseRaisesProduct(t: Terms, p: Pool, paying: Paying, amount: nat)
    requires SwapExactOut(t, p, paying, amount).Ok?
    ensures var after := SwapExactOut(t, p, paying, amount).value.0;
      after.base * after.quote >= p.base * p.quote && after.supply == p.supply
  {
    hide InFor;
    if paying == Base {
      PurchaseKeepsProduct(amount, p.base, p.quote, t.fee);
    } else {
      PurchaseKeepsProduct(amount, p.quote, p.base, t.fee);
    }
  }

  /** Once there are shares, no call lowers what a share is worth. */
  lemma ApplyRaisesWorth(t: Terms, p: Pool, op: Op)
    requires p.supply > 0 && Backed(p)
    ensures WorthAtLeast(Apply(t, p, op), p) && Apply(t, p, op).supply >= MINT_MIN_LIQUIDITY
  {
    var p' := Apply(t, p, op);
    if p' == p { return; }
    match op
    case Add(b, q, bMin, qMin) => AddRaisesWorth(t, p, b, q, bMin, qMin);
    case Remove(burn, fee, bMin, qMin) => RemoveRaisesWorth(t, p, burn, fee, bMin, qMin);
    case ExactIn(paying, x) => SaleRaisesProduct(t, p, paying, x); ProductRaisesWorth(p, p');
    case ExactOut(paying, y) => PurchaseRaisesProduct(t, p, paying, y); ProductRaisesWorth(p, p');
    case Donate(b, q) =>
      MulMono(p.base, p'.base, p'.quote);
      MulMono(p.quote, p'.quote, p.base);
      ProductRaisesWorth(p, p');
  }

  /** Worth never falling carries the backing along. */
  lemma WorthCarriesBacking(p: Pool, p': Pool)
    requires Backed(p) && p.supply > 0 && WorthAtLeast(p', p) && p'.supply >= MINT_MIN_LIQUIDITY
    ensures Backed(p')
  {
    var s, s' := p.supply * p.supply, p'.supply * p'.supply;
    MulSign(p.supply, p.supply);
    MulSign(p'.supply, p'.supply);
    MulMono(s, p.base * p.quote, s');
    MulCancel(s', p'.base * p'.quote, s);
    MulSign(p'.base, p'.quote);
  }

  lemma FirstDepositIsBacked(t: Terms, p: Pool, baseDesired: nat, quoteDesired: nat, baseMin: nat, quoteMin: nat)
    requires p.supply == 0 && AddLiquidity(t, p, baseDesired, quoteDesired, baseMin, quoteMin).Ok?
    ensures Backed(AddLiquidity(t, p, baseDesired, quoteDesired, baseMin, quoteMin).value.pool)
  {
    hide DepositAmounts;
    var d := AddLiquidity(t, p, baseDesired, quoteDesired, baseMin, quoteMin).value;
    assert d.pool.supply == IntegerSqrt(d.base * d.quote);
    MulMono(d.base, d.pool.base, d.pool.quote);
    MulMono(d.quote, d.pool.quote, d.base);
    MulSign(d.pool.supply, d.pool.supply);
    MulSign(d.pool.base, d.pool.quote);
  }

  lemma ApplyKeepsBacking(t: Terms, p: Pool, op: Op)
    requires Backed(p)
    ensures Backed(Apply(t, p, op))
  {
    if p.supply == 0 {
      SharesStartWithDeposit(t, p, op);
    } else {
      hide Apply, WorthAtLeast;
      ApplyRaisesWorth(t, p, op);
      WorthCarriesBacking(p, Apply(t, p, op));
    }
  }

  lemma SharesStartWithDeposit(t: Terms, p: Pool, op: Op)
    requires p.supply == 0
    ensures Backed(Apply(t, p, op))
  {
    if op.Add? && AddLiquidity(t, p, op.baseDesired, op.quoteDesired, op.baseMin, op.quoteMin).Ok? {
      FirstDepositIsBacked(t, p, op.baseDesired, op.quoteDesired, op.baseMin, op.quoteMin);
    } else {
      assert Apply(t, p, op).supply == 0;
      hide Apply;
      NoSharesNoClaims(Apply(t, p, op));
    }
  }

  lemma NoSharesNoClaims(p: Pool)
    requires p.supply == 0
    ensures Backed(p)
  {
    MulSign(p.base, p.quote);
  }

  /** Worth is compared transitively across states with shares. */
  lemma WorthTransitive(a: Pool, b: Pool, c: Pool)
    requires WorthAtLeast(b, a) && WorthAtLeast(c, b) && b.supply > 0
    ensures WorthAtLeast(c, a)
  {
    var ka, kb, kc := a.base * a.quote, b.base * b.quote, c.base * c.quote;
    var sa, sb, sc := a.supply * a.supply, b.supply * b.supply, c.supply * c.supply;
    MulSign(b.supply, b.supply);
    MulMono(ka * sb, kb * sa, sc);
    MulMono(kb * sc, kc * sb, sa);
    assert ka * sb * sc == (ka * sc) * sb && kb * sa * sc == kb * sc * sa && kc * sb * sa == (kc * sa) * sb;
    MulCancel(ka * sc, kc * sa, sb);
  }
}

/**
  The market as a whole: both books, the pool, the order-id counters and the accounts, under every call.

  A call that fails leaves the market as it was: the source runs each call in a storage transaction.
 */
module Markets {
  import Amm
  import opened Bits
  import opened Critbit
  import opened Errors
  import opened Freezes
  import opened Ledgers
  import opened Liquidity
  import opened Matching
  import opened OrderBook
  import opened SwapSearch
  import opened Ticks
  import opened Wrappers

  datatype Market = Market(bids: Book, asks: Book, nextBid: OrderId, nextAsk: OrderId, pool: Pool, ledger: Ledger,
                           shares: Shares)

  /** A new market: no orders, no liquidity, no shares. */
  function NewMarket(ledger: Ledger): Market {
    Market(Book(map[], 0), Book(map[], 0), 0, ASK_ID_START, Pool(0, 0, 0), ledger, map[])
  }

  // ---------- order ids ----------

  /** Bid ids are `u64` values with the top bit clear, ask ids those with it set. */
  const ASK_ID_START: nat := 0x8000_0000_0000_0000
  const U64_MAX: nat := 0xffff_ffff_ffff_ffff

  predicate IsBidId(id: OrderId) {
    And(id, ASK_ID_START) == 0
  }

  function CheckedIncrease(id: OrderId): Option<OrderId> {
    var maxId := if IsBidId(id) then ASK_ID_START else U64_MAX;
    if id == maxId - 1 then None else Some(id + 1)
  }

  lemma {:induction false} HighBit(k: nat, p: nat)
    requires k < Pow2(p + 1)
    ensures Bit(k, p) == 0 <==> k < Pow2(p)
  {
    if p > 0 {
      HighBit(k / 2, p - 1);
    }
  }

  /** The top bit tells the two id ranges apart. */
  lemma IdRanges(id: OrderId)
    requires id <= U64_MAX
    ensures IsBidId(id) <==> id < ASK_ID_START
  {
    var x := DoublePower(4, 0x10);
    x := DoublePower(8, x);
    x := DoublePower(16, x);
    x := DoublePower(32, x);
    assert Pow2(64) == U64_MAX + 1;
    assert Pow2(64) == 2 * Pow2(63);
    AndCommutes(id, ASK_ID_START);
    MaskTestsBit(63, id);
    HighBit(id, 63);
  }

  // ---------- calls ----------

  predicate ValidPrice(c: Config, price: nat)
    requires c.tickSize > 0
  {
    price > 0 && price % c.tickSize == 0
  }

  predicate ValidQuantity(c: Config, quantity: nat)
    requires c.lotSize > 0
  {
    quantity >= c.lotSize && quantity % c.lotSize == 0
  }

  /** A configuration that `create_pool` accepts. */
  predicate ValidConfig(c: Config) {
    c.tickSize > 0 && c.lotSize > 0
  }

  function BookResult(r: Result<Book, CritbitTreeError>): Result<Book, MarketError> {
    match r
    case Ok(b) => Ok(b)
    case Err(_) => Err(BookRefused)
  }

  /** `Pool::place_order`: issue an id and put the order on its side. */
  function PlaceOnSide(m: Market, isBid: bool, owner: AccountId, price: Index, quantity: nat)
    : Result<Market, MarketError>
  {
    var id := if isBid then m.nextBid else m.nextAsk;
    match CheckedIncrease(id)
    case None => Err(IdsExhausted)
    case Some(next) =>
      var book :- BookResult(PlaceIn(if isBid then m.bids else m.asks, id, owner, price, quantity));
      Ok(if isBid then m.(bids := book, nextBid := next) else m.(asks := book, nextAsk := next))
  }

  /** `do_place_order`. */
  function RestOrder(c: Config, m: Market, isBid: bool, maker: AccountId, price: Index, quantity: nat)
    : Result<Market, MarketError>
  {
    var amount :- CheckedNeed(!isBid, c.decimals, price, quantity);
    var ledger :- Freeze(m.ledger, maker, FrozenAsset(!isBid), amount);
    PlaceOnSide(m.(ledger := ledger), isBid, maker, price, quantity)
  }

  function DeskOf(m: Market, isBid: bool, taker: AccountId): Desk {
    Desk(if isBid then m.asks else m.bids, m.pool, taker, m.ledger, [], [])
  }

  /** `do_match_order`. */
  ghost function MatchOrder(c: Config, m: Market, isBid: bool, orderer: AccountId, quantity: nat)
    : Result<Market, MarketError>
  {
    var after :- MatchFrom(isBid, c, DeskOf(m, isBid, orderer), quantity);
    var settled :- Settle(isBid, c.decimals, after.ledger, orderer, after.trades);
    Ok(if isBid then m.(asks := after.book, pool := after.pool, ledger := settled)
       else m.(bids := after.book, pool := after.pool, ledger := settled))
  }

  /** `do_market_order`. */
  ghost function MarketOrder(c: Config, m: Market, isBid: bool, taker: AccountId, quantity: nat)
    : Result<Market, MarketError>
    requires ValidConfig(c)
  {
    if quantity == 0 then Err(MarketError.WrongDesiredAmount)
    else if !ValidQuantity(c, quantity) then Err(InvalidOrderQuantity)
    else MatchOrder(c, m, isBid, taker, quantity)
  }

  /** Whether a limit order is at or through the pool price. */
  predicate Marketable(isBid: bool, price: nat, poolPrice: nat) {
    if isBid then price >= poolPrice else price <= poolPrice
  }

  /** A limit order reports a price that cannot be quoted as missing liquidity. */
  function NoQuoteNoLiquidity(r: Result<nat, MarketError>): Result<nat, MarketError> {
    if r.Err? && r.error.Refused? then Err(Refused(Amm.ZeroLiquidity)) else r
  }

  /** The pool price a limit order is compared with. */
  function CurrentPrice(c: Config, m: Market): (r: Result<nat, MarketError>)
    ensures r.Ok? ==> m.pool.base > 0 && m.pool.quote > 0
    ensures r.Ok? ==> r.value == PriceOf(c.decimals, m.pool.base, m.pool.quote)
  {
    if m.pool.base == 0 || m.pool.quote == 0 then Err(Refused(Amm.ZeroLiquidity))
    else NoQuoteNoLiquidity(PoolPrice(c.decimals, m.pool.base, m.pool.quote))
  }

  /** `do_limit_order`. */
  ghost function LimitOrder(c: Config, m: Market, isBid: bool, maker: AccountId, price: Index, quantity: nat)
    : Result<Market, MarketError>
    requires ValidConfig(c)
  {
    var poolPrice :- CurrentPrice(c, m);
    if !ValidPrice(c, price) then Err(InvalidOrderPrice)
    else if !ValidQuantity(c, quantity) then Err(InvalidOrderQuantity)
    else if Marketable(isBid, price, poolPrice) then MatchOrder(c, m, isBid, maker, quantity)
    else RestOrder(c, m, isBid, maker, price, quantity)
  }

  /** `do_cancel_order`: the id alone says which book; nothing is unfrozen. */
  function CancelOnSide(m: Market, owner: AccountId, price: Index, id: OrderId, quantity: nat)
    : Result<Market, MarketError>
  {
    if IsBidId(id) then
      var book :- BookResult(CancelIn(m.bids, owner, price, id, quantity));
      Ok(m.(bids := book))
    else
      var book :- BookResult(CancelIn(m.asks, owner, price, id, quantity));
      Ok(m.(asks := book))
  }

  function PoolResult<T>(r: Result<T, LiquidityError>): Result<T, MarketError> {
    match r
    case Ok(v) => Ok(v)
    case Err(e) => Err(PoolError(e))
  }

  /** The accounts, their shares and the pool: what deposits, withdrawals and swaps move. */
  datatype Funds = Funds(pool: Pool, ledger: Ledger, shares: Shares)

  /** `add_liquidity`: `who` pays, `to` gets the shares. */
  function AddCall(c: Config, f: Funds, who: AccountId, to: AccountId, op: Op): Result<Funds, MarketError>
    requires op.Add?
  {
    var (base, quote) :-
      PoolResult(TakenAmounts(c.terms, f.pool, op.baseDesired, op.quoteDesired, op.baseMin, op.quoteMin));
    var l1 :- Withdraw(f.ledger, who, BaseAsset, base);
    var l2 :- Withdraw(l1, who, QuoteAsset, quote);
    var minted :- PoolResult(MintedFor(f.pool, base, quote));
    Ok(Funds(Deposited(f.pool, base, quote, minted), l2, Mint(f.shares, to, minted)))
  }

  /** `remove_liquidity`: `who` burns shares, `to` gets the assets. */
  function RemoveCall(c: Config, f: Funds, who: AccountId, to: AccountId, op: Op): Result<Funds, MarketError>
    requires op.Remove?
  {
    var w :- PoolResult(RemoveLiquidity(c.terms, f.pool, op.burn, op.withdrawalFee, op.baseMin, op.quoteMin));
    var shares :- Burn(f.shares, who, op.burn);
    Ok(Funds(w.pool, Credit(Credit(f.ledger, to, BaseAsset, w.base), to, QuoteAsset, w.quote), shares))
  }

  /** Swaps: `who` pays, `to` gets the proceeds. */
  function SwapCall(c: Config, f: Funds, who: AccountId, to: AccountId, op: Op): Result<Funds, MarketError>
    requires op.ExactIn? || op.ExactOut?
  {
    match op
    case ExactIn(paying, x) =>
      var (after, out) :- PoolResult(SwapExactIn(c.terms, f.pool, paying, x));
      var l :- PaySwap(paying == Quoted, f.ledger, who, to, if paying == Base then Swap(x, out) else Swap(out, x));
      Ok(f.(pool := after, ledger := l))
    case ExactOut(paying, y) =>
      var (after, paid) :- PoolResult(SwapExactOut(c.terms, f.pool, paying, y));
      var l :- PaySwap(paying == Quoted, f.ledger, who, to, if paying == Base then Swap(paid, y) else Swap(y, paid));
      Ok(f.(pool := after, ledger := l))
  }

  /** A plain transfer to the pool's account. */
  function DonateCall(f: Funds, who: AccountId, base: nat, quote: nat): Result<Funds, MarketError> {
    var l1 :- Withdraw(f.ledger, who, BaseAsset, base);
    var l2 :- Withdraw(l1, who, QuoteAsset, quote);
    Ok(f.(pool := f.pool.(base := f.pool.base + base, quote := f.pool.quote + quote), ledger := l2))
  }

  function FundsCall(c: Config, f: Funds, who: AccountId, to: AccountId, op: Op): Result<Funds, MarketError> {
    match op
    case Add(_, _, _, _) => AddCall(c, f, who, to, op)
    case Remove(_, _, _, _) => RemoveCall(c, f, who, to, op)
    case ExactIn(_, _) => SwapCall(c, f, who, to, op)
    case ExactOut(_, _) => SwapCall(c, f, who, to, op)
    case Donate(base, quote) => DonateCall(f, who, base, quote)
  }

  function FundsOf(m: Market): Funds {
    Funds(m.pool, m.ledger, m.shares)
  }

  function LiquidityCall(c: Config, m: Market, who: AccountId, to: AccountId, op: Op): Result<Market, MarketError> {
    var f :- FundsCall(c, FundsOf(m), who, to, op);
    Ok(m.(pool := f.pool, ledger := f.ledger, shares := f.shares))
  }

  datatype Call =
    | Taking(isBid: bool, who: AccountId, quantity: nat)
    | Limit(isBid: bool, who: AccountId, price: Index, quantity: nat)
    | Cancelling(who: AccountId, price: Index, id: OrderId, quantity: nat)
    | Providing(who: AccountId, to: AccountId, op: Op)

  ghost function Perform(c: Config, m: Market, call: Call): Result<Market, MarketError>
    requires ValidConfig(c)
  {
    match call
    case Taking(isBid, who, quantity) => MarketOrder(c, m, isBid, who, quantity)
    case Limit(isBid, who, price, quantity) => LimitOrder(c, m, isBid, who, price, quantity)
    case Cancelling(who, price, id, quantity) => CancelOnSide(m, who, price, id, quantity)
    case Providing(who, to, op) => LiquidityCall(c, m, who, to, op)
  }

  /** The market after a call, successful or not. */
  ghost function After(c: Config, m: Market, call: Call): Market
    requires ValidConfig(c)
  {
    match Perform(c, m, call)
    case Ok(m') => m'
    case Err(_) => m
  }

  ghost function AfterAll(c: Config, m: Market, calls: seq<Call>): Market
    requires ValidConfig(c)
    decreases calls
  {
    if calls == [] then m else AfterAll(c, After(c, m, calls[0]), calls[1..])
  }
}

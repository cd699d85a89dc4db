/**
  Freezes behind resting orders, and the settlement of trades that releases them.

  A resting ask freezes its quantity of the base asset; a resting bid freezes the quote worth of its quantity,
  rounded down. A trade releases the worth of the traded quantity, again rounded down, so partial fills never
  release more than was frozen: `floor` is superadditive.
 */
module Freezes {
  import opened Amm
  import opened Arithmetic
  import opened Bits
  import opened Errors
  import opened Ledgers
  import opened Matching
  import opened OrderBook
  import opened SwapSearch
  import opened Ticks
  import opened Wrappers

  /** The scaling between price times quantity and the quote asset. */
  function WorthScale(d: Decimals): nat {
    d.pool + QuoteAdjustment(d)
  }

  /** What `quantity` resting at `price` keeps frozen, on the ask or the bid side. */
  function Need(asks: bool, d: Decimals, price: nat, quantity: nat): nat {
    if asks then quantity
    else
      DivPositive(price * quantity, Pow10(WorthScale(d)));
      price * quantity / Pow10(WorthScale(d))
  }

  /** The same amount as the source computes it, in range. */
  function CheckedNeed(asks: bool, d: Decimals, price: nat, quantity: nat): (r: Result<nat, MarketError>)
    ensures r.Ok? ==> r.value == Need(asks, d, price, quantity)
    ensures r.Err? ==> r == Err(Trap)
  {
    if asks then Ok(quantity)
    else
      var product :- InUnit(price * quantity);
      Denom(product, WorthScale(d))
  }

  /** Exactly when it is in range. */
  lemma CheckedNeedSucceedsIff(asks: bool, d: Decimals, price: nat, quantity: nat)
    ensures CheckedNeed(asks, d, price, quantity).Ok?
       <==> asks || (price * quantity <= U128_MAX && WorthScale(d) <= 19)
  {
    hide Pow10;
    MulSign(price, quantity);
  }

  /** The asset a resting order freezes. */
  function FrozenAsset(asks: bool): Asset {
    if asks then BaseAsset else QuoteAsset
  }

  lemma NeedOfParts(asks: bool, d: Decimals, price: nat, x: nat, y: nat)
    ensures Need(asks, d, price, x) + Need(asks, d, price, y) <= Need(asks, d, price, x + y)
    ensures Need(asks, d, price, 0) == 0
  {
    if !asks {
      SumOfProducts(x, y, price);
      DivSum(price * x, price * y, Pow10(WorthScale(d)));
      DivReaches(price * 0, Pow10(WorthScale(d)), 1);
    }
  }

  // ---------- needs of orders, trades and books ----------

  ghost function OrdersNeed(asks: bool, d: Decimals, price: nat, orders: seq<Order>, who: AccountId): nat {
    if orders == [] then 0
    else (if orders[0].owner == who then Need(asks, d, price, orders[0].quantity) else 0)
         + OrdersNeed(asks, d, price, orders[1..], who)
  }

  ghost function TradesNeed(asks: bool, d: Decimals, trades: seq<Trade>, who: AccountId): nat {
    if trades == [] then 0
    else (if trades[0].owner == who then Need(asks, d, trades[0].price, trades[0].quantity) else 0)
         + TradesNeed(asks, d, trades[1..], who)
  }

  ghost function LevelNeeds(asks: bool, d: Decimals, levels: Levels, who: AccountId): map<Index, nat> {
    map p | p in levels :: OrdersNeed(asks, d, p, levels[p].openOrders, who)
  }

  /** What all resting orders of `who` on one side keep frozen. */
  ghost function BookNeed(asks: bool, d: Decimals, levels: Levels, who: AccountId): nat {
    Sum(LevelNeeds(asks, d, levels, who))
  }

  lemma {:induction false} OrdersNeedAppend(asks: bool, d: Decimals, price: nat, s: seq<Order>, t: seq<Order>,
      who: AccountId)
    ensures OrdersNeed(asks, d, price, s + t, who)
         == OrdersNeed(asks, d, price, s, who) + OrdersNeed(asks, d, price, t, who)
  {
    if s == [] {
      assert s + t == t;
    } else {
      assert (s + t)[1..] == s[1..] + t;
      OrdersNeedAppend(asks, d, price, s[1..], t, who);
    }
  }

  lemma {:induction false} TradesNeedAppend(asks: bool, d: Decimals, s: seq<Trade>, t: seq<Trade>, who: AccountId)
    ensures TradesNeed(asks, d, s + t, who) == TradesNeed(asks, d, s, who) + TradesNeed(asks, d, t, who)
  {
    if s == [] {
      assert s + t == t;
    } else {
      assert (s + t)[1..] == s[1..] + t;
      TradesNeedAppend(asks, d, s[1..], t, who);
    }
  }

  /** Filling a level releases no more than it stops needing. */
  lemma {:induction false} FillReleasesWithinNeed(asks: bool, d: Decimals, price: Index, orders: seq<Order>, q: nat,
      who: AccountId)
    ensures OrdersNeed(asks, d, price, Rest(orders, q), who)
          + TradesNeed(asks, d, AtPrice(price, Fills(orders, q)), who)
         <= OrdersNeed(asks, d, price, orders, who)
  {
    if orders != [] && q > 0 {
      var first := orders[0];
      if first.quantity >= q {
        NeedOfParts(asks, d, price, first.quantity - q, q);
        assert Rest(orders, q)[1..] == orders[1..];
        assert AtPrice(price, Fills(orders, q)) == [Trade(first.owner, price, q)];
      } else {
        FillReleasesWithinNeed(asks, d, price, orders[1..], q - first.quantity, who);
        var trades := AtPrice(price, Fills(orders, q));
        assert trades[1..] == AtPrice(price, Fills(orders[1..], q - first.quantity));
      }
    }
  }

  lemma BookNeedUpdate(asks: bool, d: Decimals, levels: Levels, p: Index, t: Tick, who: AccountId)
    ensures BookNeed(asks, d, levels[p := t], who)
         == OrdersNeed(asks, d, p, t.openOrders, who)
          + (if p in levels then BookNeed(asks, d, levels, who) - OrdersNeed(asks, d, p, levels[p].openOrders, who)
             else BookNeed(asks, d, levels, who))
    ensures p in levels ==> OrdersNeed(asks, d, p, levels[p].openOrders, who) <= BookNeed(asks, d, levels, who)
  {
    SumUpdate(LevelNeeds(asks, d, levels, who), p, OrdersNeed(asks, d, p, t.openOrders, who));
    assert LevelNeeds(asks, d, levels[p := t], who)
        == LevelNeeds(asks, d, levels, who)[p := OrdersNeed(asks, d, p, t.openOrders, who)];
  }

  lemma BookNeedWithout(asks: bool, d: Decimals, levels: Levels, p: Index, who: AccountId)
    requires p in levels
    ensures BookNeed(asks, d, levels, who)
         == BookNeed(asks, d, levels - {p}, who) + OrdersNeed(asks, d, p, levels[p].openOrders, who)
  {
    SumSplit(LevelNeeds(asks, d, levels, who), p);
    assert LevelNeeds(asks, d, levels - {p}, who) == LevelNeeds(asks, d, levels, who) - {p};
  }

  /** One book leg releases no more than the book stops needing. */
  lemma BookLegReleasesWithinNeed(asks: bool, d: Decimals, desk: Desk, price: Index, q: nat, who: AccountId)
    requires price in desk.book.levels && q > 0
    ensures BookNeed(asks, d, BookLeg(desk, price, q).book.levels, who)
          + TradesNeed(asks, d, BookLeg(desk, price, q).trades, who)
         <= BookNeed(asks, d, desk.book.levels, who) + TradesNeed(asks, d, desk.trades, who)
  {
    var levels, orders := desk.book.levels, desk.book.levels[price].openOrders;
    BookLegTrades(desk, price, q);
    var trades := if Total(orders) == 0 then [] else AtPrice(price, Fills(orders, q));
    FillReleasesWithinNeed(asks, d, price, orders, q, who);
    TradesNeedAppend(asks, d, desk.trades, trades, who);
    if Rest(orders, q) == [] {
      BookNeedWithout(asks, d, levels, price, who);
    } else {
      BookNeedUpdate(asks, d, levels, price, Tick(Rest(orders, q)), who);
    }
    hide BookNeed, OrdersNeed, TradesNeed, Fills, Rest, AtPrice, Total;
  }

  /** A whole match releases no more than the book stops needing, for every account and on either measure. */
  lemma MatchReleasesWithinNeed(isBid: bool, asks: bool, c: Config, desk: Desk, remain: nat, who: AccountId)
    ensures MatchFrom(isBid, c, desk, remain).Ok? ==>
      var after := MatchFrom(isBid, c, desk, remain).value;
      BookNeed(asks, c.decimals, after.book.levels, who) + TradesNeed(asks, c.decimals, after.trades, who)
      <= BookNeed(asks, c.decimals, desk.book.levels, who) + TradesNeed(asks, c.decimals, desk.trades, who)
  {
    hide PoolLeg, BookLeg, MatchFrom, BookNeed, TradesNeed;
    var kept := (d: Desk) =>
      BookNeed(asks, c.decimals, d.book.levels, who) + TradesNeed(asks, c.decimals, d.trades, who)
      <= BookNeed(asks, c.decimals, desk.book.levels, who) + TradesNeed(asks, c.decimals, desk.trades, who);
    forall d: Desk, q: nat | kept(d) && PoolLeg(isBid, c, d, q).Ok? ensures kept(PoolLeg(isBid, c, d, q).value) {
      PoolLegKeepsBook(isBid, c, d, q);
    }
    forall d: Desk, p: Index, q: nat | kept(d) && p in d.book.levels && q > 0 ensures kept(BookLeg(d, p, q)) {
      BookLegReleasesWithinNeed(asks, c.decimals, d, p, q, who);
    }
    MatchKeeps(isBid, c, desk, remain, kept);
  }

  // ---------- settlement ----------

  /**
    One trade settled: the maker's freeze is released and the assets change hands. As in the source, a taker
    that buys hands over `quantity` of the quote asset, not its worth.
   */
  function SettleOne(isBid: bool, d: Decimals, l: Ledger, orderer: AccountId, t: Trade): Result<Ledger, MarketError> {
    var released :- CheckedNeed(isBid, d, t.price, t.quantity);
    var (asset1, asset2) := if isBid then (BaseAsset, QuoteAsset) else (QuoteAsset, BaseAsset);
    var thawed :- Thaw(l, t.owner, asset1, released);
    var (transfer1, transfer2) := if isBid then (t.quantity, released) else (released, t.quantity);
    var handed :- Transfer(thawed, t.owner, orderer, asset1, transfer1);
    Transfer(handed, orderer, t.owner, asset2, transfer2)
  }

  /** Balance of `who` after gaining `got` and giving `gave` of an asset. */
  ghost predicate Moved(l: Ledger, after: Ledger, who: AccountId, a: Asset, got: nat, gave: nat) {
    BalanceOf(after, who, a) == BalanceOf(l, who, a) + got - gave
  }

  /**
    The buyer gets exactly the traded quantity from the seller. The quote asset goes the other way, by the amount
    released for the maker: the worth of the trade when the maker buys, the bare quantity when the taker does.
    Nobody else is touched, and whoever meets their own order ends up with what they had.
   */
  lemma SettleMoves(isBid: bool, d: Decimals, l: Ledger, orderer: AccountId, t: Trade, who: AccountId)
    requires SettleOne(isBid, d, l, orderer, t).Ok?
    ensures var after := SettleOne(isBid, d, l, orderer, t).value;
      var (buyer, seller) := if isBid then (orderer, t.owner) else (t.owner, orderer);
      var paid, same := Need(isBid, d, t.price, t.quantity), orderer == t.owner;
      && Moved(l, after, buyer, BaseAsset, t.quantity, if same then t.quantity else 0)
      && Moved(l, after, seller, BaseAsset, if same then t.quantity else 0, t.quantity)
      && Moved(l, after, buyer, QuoteAsset, if same then paid else 0, paid)
      && Moved(l, after, seller, QuoteAsset, paid, if same then paid else 0)
      && (who != buyer && who != seller ==> WalletOf(after, who) == WalletOf(l, who))
  {
    hide SettleOne, Need, BalanceOf;
    var (buyer, seller) := if isBid then (orderer, t.owner) else (t.owner, orderer);
    SettleMovesOf(isBid, d, l, orderer, t, buyer, BaseAsset);
    SettleMovesOf(isBid, d, l, orderer, t, buyer, QuoteAsset);
    SettleMovesOf(isBid, d, l, orderer, t, seller, BaseAsset);
    SettleMovesOf(isBid, d, l, orderer, t, seller, QuoteAsset);
    SettleMovesOf(isBid, d, l, orderer, t, who, BaseAsset);
  }

  /** One account and one asset in a settled trade. */
  lemma SettleMovesOf(isBid: bool, d: Decimals, l: Ledger, orderer: AccountId, t: Trade, who: AccountId, a: Asset)
    requires SettleOne(isBid, d, l, orderer, t).Ok?
    ensures var after := SettleOne(isBid, d, l, orderer, t).value;
      var (buyer, seller) := if isBid then (orderer, t.owner) else (t.owner, orderer);
      var amount := if a == BaseAsset then t.quantity else Need(isBid, d, t.price, t.quantity);
      var (to, from) := if a == BaseAsset then (buyer, seller) else (seller, buyer);
      && Moved(l, after, who, a, if who == to then amount else 0, if who == from then amount else 0)
      && (who != buyer && who != seller ==> WalletOf(after, who) == WalletOf(l, who))
  {
    hide Need, CheckedNeed, Thaw, Transfer, BalanceOf;
    var released := CheckedNeed(isBid, d, t.price, t.quantity).value;
    var (asset1, asset2) := if isBid then (BaseAsset, QuoteAsset) else (QuoteAsset, BaseAsset);
    var (transfer1, transfer2) := if isBid then (t.quantity, released) else (released, t.quantity);
    var thawed := Thaw(l, t.owner, asset1, released).value;
    ThawMovesNothing(l, t.owner, asset1, released, who, a);
    TransferMoves(thawed, t.owner, orderer, asset1, transfer1, who, a);
    var handed := Transfer(thawed, t.owner, orderer, asset1, transfer1).value;
    TransferMoves(handed, orderer, t.owner, asset2, transfer2, who, a);
  }

  /** A buying taker pays what the trade is worth only if the price is one, or above one by what rounds away. */
  lemma BuyerPaysWorthIff(d: Decimals, price: nat, quantity: nat)
    ensures var scale := Pow10(WorthScale(d));
      Need(true, d, price, quantity) == Need(false, d, price, quantity)
      <==> quantity == 0 || (scale <= price && (price - scale) * quantity < scale)
  {
    if quantity > 0 {
      DivBounds(price * quantity, Pow10(WorthScale(d)));
      FloorIsFactor(price, quantity, Pow10(WorthScale(d)), Need(false, d, price, quantity));
    } else {
      NeedOfParts(false, d, price, 0, 0);
    }
  }

  /** A taker that buys one unit at price 2 hands over 1. */
  lemma BuyerUnderpays()
    ensures var d := Decimals(0, 0, 0); Need(true, d, 2, 1) == 1 && Need(false, d, 2, 1) == 2
  {
    assert 2 * 1 / Pow10(0) == 2;
  }

  /** `handle_filled_orders`. */
  function Settle(isBid: bool, d: Decimals, l: Ledger, orderer: AccountId, trades: seq<Trade>)
    : Result<Ledger, MarketError>
  {
    if trades == [] then Ok(l)
    else
      var settled :- Settle(isBid, d, l, orderer, trades[..|trades| - 1]);
      SettleOne(isBid, d, settled, orderer, trades[|trades| - 1])
  }

  lemma SettleOneReleases(isBid: bool, d: Decimals, l: Ledger, orderer: AccountId, t: Trade, who: AccountId)
    ensures FrozenOf(l, t.owner, FrozenAsset(isBid)) >= Need(isBid, d, t.price, t.quantity) ==>
      SettleOne(isBid, d, l, orderer, t) != Err(FrozenUnderflow)
    ensures SettleOne(isBid, d, l, orderer, t).Ok? ==>
      var after := SettleOne(isBid, d, l, orderer, t).value;
      && FrozenOf(after, who, FrozenAsset(!isBid)) == FrozenOf(l, who, FrozenAsset(!isBid))
      && FrozenOf(after, who, FrozenAsset(isBid))
         == FrozenOf(l, who, FrozenAsset(isBid)) - (if t.owner == who then Need(isBid, d, t.price, t.quantity) else 0)
  {
    hide Need, CheckedNeed, Thaw, Transfer, FrozenOf;
    var need := CheckedNeed(isBid, d, t.price, t.quantity);
    var (asset1, asset2) := if isBid then (BaseAsset, QuoteAsset) else (QuoteAsset, BaseAsset);
    if need.Ok? {
      var released := need.value;
      var (transfer1, transfer2) := if isBid then (t.quantity, released) else (released, t.quantity);
      var thawed := Thaw(l, t.owner, asset1, released);
      ThawTakes(l, t.owner, asset1, released, who, asset1);
      ThawTakes(l, t.owner, asset1, released, who, asset2);
      if thawed.Ok? {
        var handed := Transfer(thawed.value, t.owner, orderer, asset1, transfer1);
        TransferErrors(thawed.value, t.owner, orderer, asset1, transfer1);
        TransferKeepsFrozen(thawed.value, t.owner, orderer, asset1, transfer1, who, asset1);
        TransferKeepsFrozen(thawed.value, t.owner, orderer, asset1, transfer1, who, asset2);
        if handed.Ok? {
          TransferErrors(handed.value, orderer, t.owner, asset2, transfer2);
          TransferKeepsFrozen(handed.value, orderer, t.owner, asset2, transfer2, who, asset1);
          TransferKeepsFrozen(handed.value, orderer, t.owner, asset2, transfer2, who, asset2);
        }
      }
    }
  }

  lemma TradesNeedSnoc(asks: bool, d: Decimals, trades: seq<Trade>, who: AccountId)
    requires trades != []
    ensures var t := trades[|trades| - 1];
      TradesNeed(asks, d, trades, who)
      == TradesNeed(asks, d, trades[..|trades| - 1], who)
       + (if t.owner == who then Need(asks, d, t.price, t.quantity) else 0)
  {
    var n := |trades| - 1;
    assert trades == trades[..n] + [trades[n]];
    TradesNeedAppend(asks, d, trades[..n], [trades[n]], who);
  }

  /** Going from `l` to `after` released exactly the trades' needs of `who`, and nothing on the other side. */
  ghost predicate Released(isBid: bool, d: Decimals, l: Ledger, after: Ledger, trades: seq<Trade>, who: AccountId) {
    && FrozenOf(after, who, FrozenAsset(!isBid)) == FrozenOf(l, who, FrozenAsset(!isBid))
    && FrozenOf(after, who, FrozenAsset(isBid))
       == FrozenOf(l, who, FrozenAsset(isBid)) - TradesNeed(isBid, d, trades, who)
  }

  /**
    Settlement never finds too little frozen when every maker's freeze covers their trades, and it releases
    exactly the trades' needs.
   */
  lemma {:induction false} SettleReleases(isBid: bool, d: Decimals, l: Ledger, orderer: AccountId, trades: seq<Trade>)
    requires forall who :: FrozenOf(l, who, FrozenAsset(isBid)) >= TradesNeed(isBid, d, trades, who)
    ensures Settle(isBid, d, l, orderer, trades) != Err(FrozenUnderflow)
    ensures Settle(isBid, d, l, orderer, trades).Ok? ==>
      forall who :: Released(isBid, d, l, Settle(isBid, d, l, orderer, trades).value, trades, who)
    decreases |trades|
  {
    hide SettleOne, Need, FrozenOf;
    if trades != [] {
      var front, t := trades[..|trades| - 1], trades[|trades| - 1];
      forall who ensures TradesNeed(isBid, d, trades, who)
        == TradesNeed(isBid, d, front, who) + (if t.owner == who then Need(isBid, d, t.price, t.quantity) else 0)
      {
        TradesNeedSnoc(isBid, d, trades, who);
      }
      SettleReleases(isBid, d, l, orderer, front);
      if Settle(isBid, d, l, orderer, front).Ok? {
        var settled := Settle(isBid, d, l, orderer, front).value;
        assert Settle(isBid, d, l, orderer, trades) == SettleOne(isBid, d, settled, orderer, t);
        assert Released(isBid, d, l, settled, front, t.owner);
        SettleOneReleases(isBid, d, settled, orderer, t, t.owner);
        if SettleOne(isBid, d, settled, orderer, t).Ok? {
          var after := SettleOne(isBid, d, settled, orderer, t).value;
          forall who ensures Released(isBid, d, l, after, trades, who) {
            assert Released(isBid, d, l, settled, front, who);
            SettleOneReleases(isBid, d, settled, orderer, t, who);
          }
        }
      }
    }
  }

  // ---------- why settlement fails ----------

  lemma SettleOneKeepsSolvent(isBid: bool, d: Decimals, l: Ledger, orderer: AccountId, t: Trade)
    requires Solvent(l)
    ensures SettleOne(isBid, d, l, orderer, t).Ok? ==> Solvent(SettleOne(isBid, d, l, orderer, t).value)
  {
    hide CheckedNeed, Thaw, Transfer, Solvent;
    if SettleOne(isBid, d, l, orderer, t).Ok? {
      var released := CheckedNeed(isBid, d, t.price, t.quantity).value;
      var (asset1, asset2) := if isBid then (BaseAsset, QuoteAsset) else (QuoteAsset, BaseAsset);
      var (transfer1, transfer2) := if isBid then (t.quantity, released) else (released, t.quantity);
      MovementsKeepSolvent(l, t.owner, asset1, released);
      var thawed := Thaw(l, t.owner, asset1, released).value;
      TransferKeepsSolvent(thawed, t.owner, orderer, asset1, transfer1);
      var handed := Transfer(thawed, t.owner, orderer, asset1, transfer1).value;
      TransferKeepsSolvent(handed, orderer, t.owner, asset2, transfer2);
    }
  }

  /** What an account can still spend. */
  function Free(l: Ledger, who: AccountId, a: Asset): int {
    BalanceOf(l, who, a) - FrozenOf(l, who, a)
  }

  /**
    When balances cover freezes and the maker's freeze covers the trade, a trade fails to settle exactly for overflow
    or because the taker cannot spend the traded quantity: the maker always delivers.
   */
  lemma SettleOneFailsIff(isBid: bool, d: Decimals, l: Ledger, orderer: AccountId, t: Trade)
    requires Solvent(l) && FrozenOf(l, t.owner, FrozenAsset(isBid)) >= Need(isBid, d, t.price, t.quantity)
    ensures SettleOne(isBid, d, l, orderer, t).Err?
       <==> CheckedNeed(isBid, d, t.price, t.quantity).Err? || Free(l, orderer, FrozenAsset(!isBid)) < t.quantity
  {
    var asset1, asset2 := FrozenAsset(isBid), FrozenAsset(!isBid);
    if CheckedNeed(isBid, d, t.price, t.quantity).Ok? {
      var released := CheckedNeed(isBid, d, t.price, t.quantity).value;
      assert released == Need(isBid, d, t.price, t.quantity) && (isBid ==> released == t.quantity);
      hide Need, CheckedNeed;
      assert FrozenOf(l, t.owner, asset1) <= BalanceOf(l, t.owner, asset1);
      var thawed := Thaw(l, t.owner, asset1, released).value;
      TransferAllowed(thawed, t.owner, orderer, asset1, released);
      ThawMovesNothing(l, t.owner, asset1, released, t.owner, asset1);
      ThawTakes(l, t.owner, asset1, released, t.owner, asset1);
      ThawMovesNothing(l, t.owner, asset1, released, orderer, asset2);
      ThawTakes(l, t.owner, asset1, released, orderer, asset2);
      var handed := Transfer(thawed, t.owner, orderer, asset1, released).value;
      TransferMoves(thawed, t.owner, orderer, asset1, released, orderer, asset2);
      TransferKeepsFrozen(thawed, t.owner, orderer, asset1, released, orderer, asset2);
      TransferAllowed(handed, orderer, t.owner, asset2, t.quantity);
      hide Solvent, Thaw, Transfer, BalanceOf, FrozenOf;
    }
  }

  lemma TransferAllowed(l: Ledger, from: AccountId, to: AccountId, a: Asset, amount: nat)
    ensures Transfer(l, from, to, a, amount).Ok? <==> Free(l, from, a) >= amount
  {
  }

  /** Settlement keeps balances above freezes, and takes at most the traded quantities from the taker. */
  lemma {:induction false} SettleKeepsSolvent(isBid: bool, d: Decimals, l: Ledger, orderer: AccountId,
      trades: seq<Trade>)
    requires Solvent(l)
    ensures Settle(isBid, d, l, orderer, trades).Ok? ==> Solvent(Settle(isBid, d, l, orderer, trades).value)
    decreases |trades|
  {
    hide SettleOne, Solvent;
    if trades != [] && Settle(isBid, d, l, orderer, trades).Ok? {
      var front, t := trades[..|trades| - 1], trades[|trades| - 1];
      SettleKeepsSolvent(isBid, d, l, orderer, front);
      SettleOneKeepsSolvent(isBid, d, Settle(isBid, d, l, orderer, front).value, orderer, t);
    }
  }

  lemma SettleOneSpends(isBid: bool, d: Decimals, l: Ledger, orderer: AccountId, t: Trade)
    requires SettleOne(isBid, d, l, orderer, t).Ok?
    ensures var a := FrozenAsset(!isBid);
      Free(SettleOne(isBid, d, l, orderer, t).value, orderer, a) >= Free(l, orderer, a) - t.quantity
  {
    hide SettleOne, BalanceOf, FrozenOf;
    SettleMovesOf(isBid, d, l, orderer, t, orderer, FrozenAsset(!isBid));
    SettleOneReleases(isBid, d, l, orderer, t, orderer);
  }

  /** Some trade's worth is out of range. */
  ghost predicate Overflows(isBid: bool, d: Decimals, trades: seq<Trade>) {
    exists i :: 0 <= i < |trades| && CheckedNeed(isBid, d, trades[i].price, trades[i].quantity).Err?
  }

  /**
    The settlement of a whole match fails only for overflow or because the taker cannot spend what was traded, when
    balances cover freezes and every maker's freeze covers their trades.
   */
  lemma {:induction false} SettleFailsOnlyForTaker(isBid: bool, d: Decimals, l: Ledger, orderer: AccountId,
      trades: seq<Trade>)
    requires Solvent(l)
    requires forall who :: FrozenOf(l, who, FrozenAsset(isBid)) >= TradesNeed(isBid, d, trades, who)
    ensures Settle(isBid, d, l, orderer, trades).Err? ==>
      Overflows(isBid, d, trades) || Free(l, orderer, FrozenAsset(!isBid)) < TradeSum(trades)
    ensures Settle(isBid, d, l, orderer, trades).Ok? ==>
      var after := Settle(isBid, d, l, orderer, trades).value;
      Free(after, orderer, FrozenAsset(!isBid)) >= Free(l, orderer, FrozenAsset(!isBid)) - TradeSum(trades)
    decreases |trades|
  {
    hide SettleOne, Need, CheckedNeed, FrozenOf, Free, Solvent;
    if trades != [] {
      var front, t := trades[..|trades| - 1], trades[|trades| - 1];
      forall who ensures TradesNeed(isBid, d, trades, who)
        == TradesNeed(isBid, d, front, who) + (if t.owner == who then Need(isBid, d, t.price, t.quantity) else 0)
      {
        TradesNeedSnoc(isBid, d, trades, who);
      }
      assert trades == front + [t];
      TradeSumAppend(front, [t]);
      SettleFailsOnlyForTaker(isBid, d, l, orderer, front);
      FrontOverflows(isBid, d, trades);
      SettleReleases(isBid, d, l, orderer, front);
      SettleKeepsSolvent(isBid, d, l, orderer, front);
      if Settle(isBid, d, l, orderer, front).Ok? {
        var settled := Settle(isBid, d, l, orderer, front).value;
        assert Released(isBid, d, l, settled, front, t.owner);
        assert TradeSum([t]) == t.quantity;
        SettleOneFailsIff(isBid, d, settled, orderer, t);
        if SettleOne(isBid, d, settled, orderer, t).Ok? {
          SettleOneSpends(isBid, d, settled, orderer, t);
        }
      }
    }
  }

  lemma FrontOverflows(isBid: bool, d: Decimals, trades: seq<Trade>)
    requires trades != []
    ensures var t := trades[|trades| - 1];
      Overflows(isBid, d, trades[..|trades| - 1]) || CheckedNeed(isBid, d, t.price, t.quantity).Err? ==>
        Overflows(isBid, d, trades)
  {
    hide CheckedNeed;
    var front := trades[..|trades| - 1];
    if Overflows(isBid, d, front) {
      var i :| 0 <= i < |front| && CheckedNeed(isBid, d, front[i].price, front[i].quantity).Err?;
      assert trades[i] == front[i];
    }
  }
}

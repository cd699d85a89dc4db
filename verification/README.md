# Hybrid order book, verified

The hybrid-orderbook pallet trades one asset against another in two order books and a constant-product pool that
share one state. This project models that state and the calls on it and proves what they keep.

* `Bits`, `Shapes`, `Links`, `Splices`, `Critbit`: the crit-bit tree that holds the price levels. `CritbitTree` is a
  class with the source's fields, changed in place; it is shown to be a map from price to level. `Shapes` has the
  tree the links spell out and its contexts (a tree with a hole); `Splices` has the pointer surgery.
* `Ticks`, `OrderBook`: one price level, and the book operations on the tree against the same ones on a plain map.
* `Arithmetic`, `Amm`, `Liquidity`: the pool's integer arithmetic, deposits, withdrawals and swaps.
* `SwapSearch`, `Matching`: the binary search for a pool leg, and matching that alternates between pool and book.
* `Ledgers`, `Freezes`: balances, freezes and pool shares of the accounts, and the settlement of trades.
* `Markets`, `MarketSafety`, `MarketRuns`: all calls as functions on a market, and what holds over every run of them.
* `Rounds`, `Effects`, `Failures`, `Funding`: how a match divides an order between pool and book; what every call
  does to every account, level, reserve and share; and exactly when it fails.
* `Costs`, `Legs`: what pool legs cost and bring against a price, for one leg, for a search and for a whole match.
* `Limits`: when a limit order that is matched at once respects its limit.
* `Exchanges`: the same calls on mutable trees, pool and ledger, with rollback; shown to refine `Markets`.

`Markets.Perform` says what one call does to a market, `Markets.AfterAll` what a run of calls does. A failed call
leaves the state before it, as the source's `try_mutate` does.

Amounts and tree indices are `u128` and wide intermediates 256 bits, as in the runtime. A plain operator that would
overflow, underflow or exceed the range of `u64` powers of ten is the error `Trap`, a failed call. The pool fee is a
parameter below 1000 (the runtime has 3) and the locked minimum of shares is 100
(`runtime/src/configs/mod.rs:393`).

## Where code and description differ

The model follows the code. The files cited here are in `pallets/hybrid-orderbook/src`.

* The pallet's README (lines 25 and 34) says orders are filled at the better of pool and book. The search goes by the
  pool price after a leg, which is rounded down and has no fee in it. By that price buying searches stop at the ask
  (`BidLegStaysBelowTarget`, `BidMatchKeepsPriceInside`), while selling searches record the probes on the wrong side of
  the bid (`lib.rs:1389-1398`; `AskLegEndings` and `AskAnswerIff` say exactly what follows, `AskLegExample` and
  `AskLegSkipsPool` show it).
* By what a leg costs or brings, the promise fails in both directions and both ways: a leg is dearer than the ask
  (`PurchaseCostsMore`) or brings less than the bid (`SaleBringsLess`), or a better pool is left (`CheaperPoolSkipped`,
  `AskLegSkipsPool`). `BidSearchIsBestIff` and `AskSearchIsBestIff` say exactly when it holds for the leg a search
  chooses, against the best price of the book.
* A taker that buys from the book hands over `q` of the quote asset rather than the worth of `q`
  (`lib.rs:966-981`): `SettleMoves`, `BuyerUnderpays` and `BuyerPaysWorthIff`.
* Cancelling does not unfreeze (`lib.rs:1130-1153`), so freezes are bounded from below only: `CancelStrandsFreeze`.
* A marketable limit order is matched without its limit price (`lib.rs:1062-1070`), so it can trade beyond it
  (`LimitIsNotHandedOn`) and pay the pool more (`LimitLegCostsMore`). `LimitRespectedIff` says exactly when it does not,
  `LimitHolds` gives tests before the call.
* The worth of a bid leaves out the scaling of the base side (`lib.rs:966-981`, `1106-1110`), so it disagrees with the
  pool price when the base asset has fewer decimals than the quote asset: `WorthIsTenfold`, `NeedIsWorthIff`.
* Reserves sent to a pool before its first deposit go to the first depositor: `DepositorGainsIff`.
* A comment speaks of leaf indices at or above the partition index; the code has them strictly above
  (`types.rs:738-765`): `IndicesStayApart`.
* The test `order_id_op_works` (`types.rs:998-1003`) expects the id after the first ask id to be a bid id; by the code
  it is an ask id.

## Model

| member | source | states |
|---|---|---|
| Bits.NewMaskIsCritBit | pallets/hybrid-orderbook/src/types.rs:767-771 | The mask computed by leading zeros of the exclusive or is the single bit at which two different keys first differ from the top: above it they agree, at it they do not. |
| Bits.MaskTestsBit | pallets/hybrid-orderbook/src/critbit.rs:496-506 | Testing a key against a one-bit mask tells exactly whether the key has that bit. |
| Bits.BitDecidesOrder | pallets/hybrid-orderbook/src/critbit.rs:137-141 | The first differing prefix decides the numeric order of two keys, so zero bits to the left is ascending order. |
| Bits.PartitionIsTopBit | pallets/hybrid-orderbook/src/types.rs:763-765 | The partition index is the top bit of an index, and the capacity of a tree is one less than it. |
| Shapes.ClosestFinds | pallets/hybrid-orderbook/src/critbit.rs:490-509 | Following bits downward reaches a key whenever the trie holds it. |
| Shapes.ReplaceTrie | pallets/hybrid-orderbook/src/critbit.rs:126-162 | Exchanging a subtree for another with the same prefixes keeps the whole trie property, at any depth. |
| Shapes.PlugOrders | pallets/hybrid-orderbook/src/critbit.rs:303-337 | Everything to the left of the path to a subtree is smaller, everything to its right larger, than all its keys. |
| Splices.LinksMirror | pallets/hybrid-orderbook/src/critbit.rs:449-487 | At every internal node of a represented tree: the mask is one bit, children have smaller masks and point back to it, the two children differ, and its parent (or the root field) points to it. |
| Splices.InsertRepresents | pallets/hybrid-orderbook/src/critbit.rs:117-162 | Pointer surgery of an insertion: attaching the new internal node at the place the walk found yields maps that again spell out one trie, with exactly one key, one node and one leaf more, all other entries kept. |
| Splices.RemoveRepresents | pallets/hybrid-orderbook/src/critbit.rs:201-243 | Pointer surgery of a removal: promoting the sibling, at the root or below it, yields maps that again spell out one trie with exactly that leaf and its parent node gone. |
| Critbit.CritbitTree.ContentsAreLeaves | pallets/hybrid-orderbook/src/critbit.rs:379-394 | In a valid tree every entry of the plain map is stored in exactly one leaf, under its key and with its value. |
| Critbit.CritbitTree.IndicesStayApart | pallets/hybrid-orderbook/src/critbit.rs:424-445 | In a valid non-empty tree there is one leaf more than internal nodes, live indices lie below their counters, the node counter below the leaf counter, and leaf links lie strictly above the partition, node links below it. |
| Critbit.CritbitTree.MaxLeaf | pallets/hybrid-orderbook/src/critbit.rs:65-75 | Answers the largest key and its leaf; nothing exactly for the empty tree. |
| Critbit.CritbitTree.MinLeaf | pallets/hybrid-orderbook/src/critbit.rs:80-90 | Answers the smallest key and its leaf; nothing exactly for the empty tree. |
| Critbit.CritbitTree.GetClosestLeafIndex | pallets/hybrid-orderbook/src/critbit.rs:490-509 | The downward loop ends at the one leaf whose path the key follows. |
| Critbit.CritbitTree.FindLeaf | pallets/hybrid-orderbook/src/critbit.rs:379-394 | Finds a leaf if and only if the plain map has the key, and then the leaf of that key. |
| Critbit.CritbitTree.LeftMostLeaf | pallets/hybrid-orderbook/src/critbit.rs:342-352 | Ends at the smallest key of the subtree it starts in. |
| Critbit.CritbitTree.RightMostLeaf | pallets/hybrid-orderbook/src/critbit.rs:357-370 | Ends at the largest key of the subtree it starts in. |
| Critbit.CritbitTree.NextLeaf | pallets/hybrid-orderbook/src/critbit.rs:303-337 | For a present key the exact in-order successor, or none exactly at the largest; an absent key is refused. |
| Critbit.CritbitTree.PreviousLeaf | pallets/hybrid-orderbook/src/critbit.rs:262-296 | For a present key the exact in-order predecessor, or none exactly at the smallest; an absent key is refused. |
| Critbit.CritbitTree.UpdateRef | pallets/hybrid-orderbook/src/critbit.rs:449-487 | Both directions of one link are set, in the node map or the leaf map as the index says, and nothing else. |
| Critbit.CritbitTree.Locate | pallets/hybrid-orderbook/src/critbit.rs:126-142 | The place of a new node: all masks above it are larger, all below smaller, and the closest leaf is in the subtree there. |
| Critbit.CritbitTree.UpdateMinMaxLeaf | pallets/hybrid-orderbook/src/critbit.rs:397-412 | The cached extremes are those of the leaves including the new one. |
| Critbit.CritbitTree.Insert | pallets/hybrid-orderbook/src/critbit.rs:93-167 | Is map insertion and keeps the whole tree invariant. It fails exactly at capacity or for a present key; index clashes and missing nodes never occur. |
| Critbit.CritbitTree.ExtremesWithout | pallets/hybrid-orderbook/src/critbit.rs:178-192 | Finds, before the removal, the extremes that remain after it, or that nothing remains. |
| Critbit.CritbitTree.RemoveLeafByIndex | pallets/hybrid-orderbook/src/critbit.rs:172-246 | Is map deletion of that leaf's key and keeps the whole tree invariant, resetting the tree exactly when it becomes empty. An unknown leaf changes nothing. |
| Critbit.CritbitTree.Reset | pallets/hybrid-orderbook/src/critbit.rs:249-255 | Root, cached extremes and both counters go back to those of a new tree. |
| Ticks.PlacedAppends | pallets/hybrid-orderbook/src/types.rs:886-895 | An order newer than all present goes behind them and overwrites none. |
| Ticks.Filled | pallets/hybrid-orderbook/src/types.rs:897-931 | The loop leaves exactly the specified rest of the level and reports exactly the specified fills, or nothing when nothing was filled. |
| Ticks.FillConserves | pallets/hybrid-orderbook/src/types.rs:897-931 | Level total before is total after plus filled, and filled is the smaller of request and total. |
| Ticks.FillsOldestFirst | pallets/hybrid-orderbook/src/types.rs:897-931 | Fills go to a prefix of the level in id order; all but the last are complete, and what is left is the untouched rest behind the remainder of the last one. |
| Ticks.LevelUsedUp | pallets/hybrid-orderbook/src/types.rs:897-931 | A level ends up with no order at all exactly when it had none or strictly more than its total was asked; an exact fill leaves one order of quantity zero. |
| Ticks.FillKeepsOrder | pallets/hybrid-orderbook/src/types.rs:897-931 | Ids keep ascending, at most the oldest order is spent, and no id appears. |
| Ticks.CancelNeedsOwner | pallets/hybrid-orderbook/src/types.rs:951-970 | Succeeds exactly for an order with that id, that owner and at least that quantity; not-found is reported exactly for an absent id. |
| Ticks.CancelTakesQuantity | pallets/hybrid-orderbook/src/types.rs:951-970 | The level total falls by exactly the cancelled quantity. |
| Ticks.CancelTouchesOwn | pallets/hybrid-orderbook/src/types.rs:951-970 | No other order is added, removed or changed; the own order stays, reduced, exactly while something of it is left. |
| Ticks.CancelKeepsOrder | pallets/hybrid-orderbook/src/types.rs:951-970 | Ids keep ascending, at most the oldest order is spent, and no id appears. |
| OrderBook.MinOrder | pallets/hybrid-orderbook/src/critbit.rs:641-648 | The tree answers the lowest price of the plain map and the leaf that holds that price and its level; nothing exactly for the empty map. |
| OrderBook.MaxOrder | pallets/hybrid-orderbook/src/critbit.rs:650-657 | The tree answers the highest price of the plain map and the leaf that holds that price and its level; nothing exactly for the empty map. |
| OrderBook.OpenOrdersAt | pallets/hybrid-orderbook/src/critbit.rs:629-639 | The tree's answer is the plain map's level at that price. |
| OrderBook.PlaceOrder | pallets/hybrid-orderbook/src/critbit.rs:659-688 | On the tree as on the plain map: same new book, same failure. |
| OrderBook.FillOrder | pallets/hybrid-orderbook/src/critbit.rs:690-711 | On the tree as on the plain map: same fills, same new book; an emptied level disappears. |
| OrderBook.CancelOrder | pallets/hybrid-orderbook/src/critbit.rs:713-737 | On the tree as on the plain map; a failure changes nothing and an emptied level stays. |
| OrderBook.Replay | pallets/hybrid-orderbook/src/critbit.rs:629-737 | Every sequence of placing, filling and cancelling on a new tree gives, one by one, the best prices, orders at a price, fills and failures the same sequence gives on a plain map. |
| Amm.BuysAtLeast | pallets/hybrid-orderbook/src/lib.rs:1936-1968 | The floor division solved: a payment buys at least an amount exactly when the cross-multiplied inequality holds. |
| Amm.OutBelowReserve | pallets/hybrid-orderbook/src/lib.rs:1936-1968 | A sale never empties the other reserve. |
| Amm.QuotedPaymentSuffices | pallets/hybrid-orderbook/src/lib.rs:1974-2010 | Paying the quoted amount buys at least what was asked; paying two less does not. |
| Amm.QuoteIsTightUnlessExact | pallets/hybrid-orderbook/src/lib.rs:1974-2010 | Paying one less would still do exactly when the quoted division has no remainder. |
| Amm.QuoteInvertsSale | pallets/hybrid-orderbook/src/lib.rs:1936-2010 | Quoting what a payment bought gives at most that payment plus one. |
| Amm.SplittingNeverGains | pallets/hybrid-orderbook/src/lib.rs:1936-1968 | Selling in two parts, the second on the moved reserves, never yields more than selling at once. |
| Amm.SaleKeepsProduct | pallets/hybrid-orderbook/src/lib.rs:1936-1968 | The product of the reserves does not fall by a sale, rounding and fee included. |
| Amm.PurchaseKeepsProduct | pallets/hybrid-orderbook/src/lib.rs:1974-2010 | The product of the reserves does not fall by a purchase, rounding and fee included. |
| Amm.QuoteGrows | pallets/hybrid-orderbook/src/lib.rs:1974-2010 | Buying more never costs less. |
| Amm.SplittingCostsMore | pallets/hybrid-orderbook/src/lib.rs:1974-2010 | Buying in two parts, the second on the moved reserves, never costs less than buying at once. |
| Amm.MulDivSucceedsIff | pallets/hybrid-orderbook/src/lib.rs:1918-1930 | Exactly when the wide multiplication and division is in range: a comparison of products. |
| Amm.AmountOutSucceedsIff | pallets/hybrid-orderbook/src/lib.rs:1936-1968 | Exactly when a sale can be priced: both reserves positive, the products within 256 bits, the result within 128. |
| Amm.AmountInSucceedsIff | pallets/hybrid-orderbook/src/lib.rs:1974-2010 | Exactly when a purchase can be priced: it leaves something of the reserve, and the same ranges. |
| Liquidity.IntegerSqrt | pallets/hybrid-orderbook/src/lib.rs:1902-1916 | The integer square root: the largest number whose square does not exceed the argument. |
| Liquidity.OptimalNeverExceedsDesired | pallets/hybrid-orderbook/src/lib.rs:599-641 | The amounts taken never exceed the desired ones, and the check for that in the second branch never fails. |
| Liquidity.AmountsKeepRatio | pallets/hybrid-orderbook/src/lib.rs:599-641 | What a deposit takes, exactly: without reserves all that is desired; else all of one asset and the other at the reserves' ratio rounded down, the choice decided by a comparison of products; and each failure by the amount that overflows or misses its minimum. |
| Liquidity.SharesAreCovered | pallets/hybrid-orderbook/src/lib.rs:677-681 | Shares of a later deposit claim no more than was paid for them, of either asset. |
| Liquidity.SharesAreMost | pallets/hybrid-orderbook/src/lib.rs:677-681 | One share more would claim too much: with the row before, the number of shares is exact. |
| Liquidity.MintsIff | pallets/hybrid-orderbook/src/lib.rs:666-689 | Exactly when a deposit mints shares, as ranges and comparisons of products, for the first deposit and later ones. |
| Liquidity.DepositThenWithdraw | pallets/hybrid-orderbook/src/lib.rs:599-783 | Withdrawing all that a deposit minted returns no more of either asset, on every pool that has shares or no reserves. |
| Liquidity.DepositorGainsIff | pallets/hybrid-orderbook/src/lib.rs:599-783 | Exactly when it returns more, as a test on the pool and the amounts before the deposit: the pool has no shares, and with the integer square root of the amounts as supply the redeemable shares times its reserve reach the deposited amount times the shares that stay behind (locked or fee), plus the supply. |
| Liquidity.WithdrawalPays | pallets/hybrid-orderbook/src/lib.rs:729-783 | A withdrawal pays the redeemed part of each reserve, rounded down, and redeems no more shares than there are. |
| Liquidity.WithdrawsIff | pallets/hybrid-orderbook/src/lib.rs:729-783 | Exactly when a withdrawal goes through: what it pays is in range, positive and no less than asked, and the pool keeps its minimum balances and its locked shares. |
| Liquidity.FirstDepositorCollectsDonations | pallets/hybrid-orderbook/src/lib.rs:599-783 | A concrete pool with reserves and no shares, whose first depositor pays 1000 and withdraws 1800. |
| Liquidity.ApplyRaisesWorth | pallets/hybrid-orderbook/src/lib.rs:599-783 | No deposit, withdrawal, swap or donation lowers the reserves' product per squared share, and the locked shares stay. |
| Liquidity.ApplyKeepsBacking | pallets/hybrid-orderbook/src/lib.rs:599-783 | Every call keeps the squared supply within the product of the reserves and, once there are shares, both reserves positive. |
| SwapSearch.FindMaxSwapQuantity | pallets/hybrid-orderbook/src/lib.rs:1344-1412 | The binary search loop computes the specified search, failures included; what that search returns is said by the rows that follow. |
| SwapSearch.BidSearchIsLargest | pallets/hybrid-orderbook/src/lib.rs:1344-1412 | Where a buying search ends: on nothing or on a quantity that halving in steps of a unit brings up and whose price is within the target; and, unless it hits the target, no larger quantity that halving brings up has a price within it. |
| SwapSearch.AskSearchIsSmallest | pallets/hybrid-orderbook/src/lib.rs:1344-1412 | Where a selling search ends, likewise: unless it hits the target, on the smallest quantity that halving brings up and that takes the price below the target, or on nothing when there is none. |
| SwapSearch.SearchTrapsIff | pallets/hybrid-orderbook/src/lib.rs:1344-1412 | Where all quantities can be priced, a search of either direction fails exactly when halving brings up a quantity of less than one unit that it would have to shrink further. |
| SwapSearch.PriceMeans | pallets/hybrid-orderbook/src/lib.rs:1321-1336 | The pool price reaches a number exactly when the quote reserve, scaled by pool and base decimals, reaches that number times the base reserve, scaled by the quote decimals. |
| SwapSearch.PoolPriceSucceedsIff | pallets/hybrid-orderbook/src/lib.rs:1321-1336 | Exactly when a pool price can be computed: every scaled amount, the unit and the price are in range. |
| SwapSearch.BidPriceGrows | pallets/hybrid-orderbook/src/lib.rs:1360-1369 | The pool price after a purchase grows with the amount bought and never lies below the price before. |
| SwapSearch.AskPriceFalls | pallets/hybrid-orderbook/src/lib.rs:1370-1380 | The pool price after a sale falls with the amount sold. |
| SwapSearch.BidLegStaysBelowTarget | pallets/hybrid-orderbook/src/lib.rs:1344-1412 | Judged by the pool price after it: a purchase found is within the order and is zero or leaves that price at or below the target; unless it hits the target, every quantity two search steps larger passes it. |
| SwapSearch.AskLegEndings | pallets/hybrid-orderbook/src/lib.rs:1344-1412 | The three ways a selling search returns and exactly when, judged by the pool price: nothing is sold to the pool iff even the largest probe stays above the bid; it stops on the bid iff halving can reach a quantity priced there; otherwise it takes the price past the bid. |
| SwapSearch.AskSearchHits | pallets/hybrid-orderbook/src/lib.rs:1344-1412 | From any state of the search: it ends on the target exactly when halving towards some exactly priced quantity brings that quantity up. |
| SwapSearch.AskAnswerIff | pallets/hybrid-orderbook/src/lib.rs:1344-1412 | What buying searches keep about the pool price, mirrored, holds for a selling search exactly when it hits the bid, or the order is so short that its largest probe stays above the bid and two units, if it has them, fall below it. |
| SwapSearch.AskLegSkipsPool | pallets/hybrid-orderbook/src/lib.rs:1344-1412 | A concrete pool that would pay 9066 for a unit, skipped for a bid at 90. |
| SwapSearch.AskLegExample | pallets/hybrid-orderbook/src/lib.rs:1389-1398 | A concrete pool at price 100 and bid at 90 where the search sells one unit and the price goes to 82. |
| Matching.TurnShrinks | pallets/hybrid-orderbook/src/lib.rs:1175-1242 | Each round finishes the order or removes the best level for good, spent and empty levels included: the measure by which matching terminates. |
| Matching.MatchKeeps | pallets/hybrid-orderbook/src/lib.rs:1161-1262 | An induction principle over the whole loop: whatever both kinds of legs keep, a match keeps. |
| Matching.BookLegUsesUpLevel | pallets/hybrid-orderbook/src/lib.rs:1293-1314 | A book leg fills the smaller of request and level, and drops the level when it falls short. |
| Matching.MatchFillsOrder | pallets/hybrid-orderbook/src/lib.rs:1161-1262 | Pool legs and book fills of a match add up to exactly the order quantity. |
| Matching.MatchSweepsQueue | pallets/hybrid-orderbook/src/lib.rs:1161-1262 | All trades of a match, across its rounds, are one sweep of the queue of resting orders up to the traded total. |
| Matching.QueueInOrder | pallets/hybrid-orderbook/src/types.rs:455-463 | That queue holds exactly the resting orders of levels that have something to give, from best to worst price and by ascending id within a price; a level of total zero is passed over without a trade. |
| Matching.SweepServesInOrder | pallets/hybrid-orderbook/src/types.rs:897-931 | A sweep serves a prefix of the queue and completes every order but the last. |
| Matching.PriceTimePriority | pallets/hybrid-orderbook/src/lib.rs:1161-1262 | If an order was traded, every better-priced or older order at its price was traded before it and in full. |
| Matching.BidMatchKeepsPriceInside | pallets/hybrid-orderbook/src/lib.rs:1161-1291 | A buying match, with all its legs, never lifts the pool price above an ask that is left, and never lowers it. |
| Matching.AskMatchLowersPrice | pallets/hybrid-orderbook/src/lib.rs:1161-1291 | A selling match, with all its legs, never raises the pool price. |
| Matching.MatchRaisesProduct | pallets/hybrid-orderbook/src/lib.rs:1161-1291 | A match never lowers the product of the reserves and leaves the shares alone. |
| Freezes.NeedOfParts | pallets/hybrid-orderbook/src/types.rs:980-990 | The rounded worth of two parts is at most the rounded worth of the whole. |
| Freezes.CheckedNeedSucceedsIff | pallets/hybrid-orderbook/src/lib.rs:966-981 | Exactly when the worth of an order or a trade is in range: always for the base asset, else when price times quantity and the power of ten are. |
| Freezes.FillReleasesWithinNeed | pallets/hybrid-orderbook/src/lib.rs:946-993 | Partial fills of a level release no more than its orders stop needing, for every account. |
| Freezes.MatchReleasesWithinNeed | pallets/hybrid-orderbook/src/lib.rs:1161-1262 | A whole match releases no more than the book stops needing, for every account, measured in needs or in quantities. |
| Freezes.SettleReleases | pallets/hybrid-orderbook/src/lib.rs:946-993 | If the makers' freezes cover their trades, settlement never finds too little frozen and releases exactly the trades' needs, nothing on the other side. |
| Freezes.SettleOneFailsIff | pallets/hybrid-orderbook/src/lib.rs:946-993 | When balances cover freezes and the maker's freeze the trade, a trade fails to settle exactly for overflow or because the taker cannot spend the traded quantity. |
| Freezes.SettleFailsOnlyForTaker | pallets/hybrid-orderbook/src/lib.rs:946-993 | The same for all trades of a match: failure means overflow, or a taker that cannot spend what was traded. |
| Freezes.SettleMoves | pallets/hybrid-orderbook/src/lib.rs:946-993 | Of one trade the buyer gets exactly the quantity from the seller, the seller exactly the released amount from the buyer, and nobody else is touched; a taker that meets an own order ends up with what they had. |
| Freezes.BuyerPaysWorthIff | pallets/hybrid-orderbook/src/lib.rs:966-981 | That amount is the bare quantity when the taker buys; it is the trade's worth exactly when the price is one, or above it by less than one unit over the whole quantity. |
| Freezes.BuyerUnderpays | pallets/hybrid-orderbook/src/lib.rs:966-981 | At price 2 a taker that buys one unit hands over 1. |
| MarketSafety.PlaceKeepsSide | pallets/hybrid-orderbook/src/types.rs:467-490 | A placed order gets an id no level has, so it overwrites nothing and keeps every level in order. |
| MarketSafety.MatchKeepsSide | pallets/hybrid-orderbook/src/lib.rs:1161-1262 | A match keeps every level ascending with at most its oldest order spent, and ids on one level each. |
| MarketSafety.CancelAddsSpare | pallets/hybrid-orderbook/src/lib.rs:1130-1153 | A cancellation moves no funds: the owner's spare freeze grows by exactly the need it ends, everyone else's stays. |
| MarketSafety.PerformKeepsSound | pallets/hybrid-orderbook/src/lib.rs:946-1291 | Every call keeps the safety invariant (books in order, ids in their halves, needs covered by freezes, shares backed and all accounted for), shrinks nobody's spare freeze and never fails for lack of frozen funds. |
| MarketSafety.LiquidityCallKeepsShares | pallets/hybrid-orderbook/src/lib.rs:666-689 | Shares in the accounts and the locked ones make up the supply, through every deposit, withdrawal and swap. |
| MarketSafety.HoldersCanBurn | pallets/hybrid-orderbook/src/lib.rs:757-765 | In a sound market whoever holds the shares they burn leaves the locked ones in the pool. |
| MarketSafety.EveryRunIsSound | pallets/hybrid-orderbook/src/lib.rs:946-1291 | The same over every run of calls. |
| MarketSafety.EveryNewMarketStaysSound | pallets/hybrid-orderbook/src/lib.rs:946-1291 | The invariant in every market reachable from a new one. |
| MarketSafety.CancelStrandsFreeze | pallets/hybrid-orderbook/src/lib.rs:1130-1153 | What a cancellation stops needing stays frozen: no later run of calls brings the owner's spare freeze below it. For asks that is the cancelled quantity itself. |
| MarketRuns.RunsConserveAssets | pallets/hybrid-orderbook/src/lib.rs:946-1291 | Over every run of calls accounts and pool together hold the same amount of each asset. |
| MarketRuns.NoIdIssuedTwice | pallets/hybrid-orderbook/src/types.rs:431-441 | Over every run no order id is issued twice; bid ids stay in the lower half and ask ids in the upper. |
| MarketRuns.IssuedIdsAppear | pallets/hybrid-orderbook/src/types.rs:467-490 | The orders in the books after a call and not before it are exactly those whose ids the call issued. |
| MarketRuns.OrdersComeFromIssues | pallets/hybrid-orderbook/src/types.rs:431-490 | Over every run, whatever rests at the end rested at the start or was issued on the way. |
| MarketRuns.CancellationReachesOrder | pallets/hybrid-orderbook/src/types.rs:509-526 | In a sound market the id of a resting order names its book, so its owner can cancel any part of it. |
| MarketRuns.GentleCallKeepsInside | pallets/hybrid-orderbook/src/lib.rs:1028-1128 | If every bid is below the pool price and no ask is, buying matches, resting placements and cancellations keep it so. |
| MarketRuns.GentleRunKeepsInside | pallets/hybrid-orderbook/src/lib.rs:1028-1291 | The same over every run of such calls. |
| MarketRuns.TradingKeepsAsksAbove | pallets/hybrid-orderbook/src/lib.rs:996-1291 | Orders of both directions, matched or resting, and cancellations keep every ask at or above the pool price. |
| MarketRuns.TradingRunKeepsAsksAbove | pallets/hybrid-orderbook/src/lib.rs:996-1291 | The same over every run of such calls. |
| MarketRuns.RunsRaiseWorth | pallets/hybrid-orderbook/src/lib.rs:575-1291 | Over every run of calls of every kind, trading included, the reserves' product per squared share never falls and shares never vanish. |
| MarketRuns.EveryRunIsSolvent | pallets/hybrid-orderbook/src/lib.rs:575-1291 | Over every run balances stay above freezes, if they were at the start. |
| MarketRuns.MakersDeliver | pallets/hybrid-orderbook/src/lib.rs:946-993 | In a sound market where they are, a match that is settled fails there only for overflow or for the taker's own funds. |
| Costs.PriceOfDeal | pallets/hybrid-orderbook/src/lib.rs:1321-1336 | Cost and proceeds against a price are the pool's own price formula applied to the deal, without its rounding. |
| Costs.PurchaseCostIff | pallets/hybrid-orderbook/src/lib.rs:1974-2010 | Exactly which purchases from given reserves cost no more than a price, fee, rounding and decimals included: a comparison of products. |
| Costs.SaleBringsIff | pallets/hybrid-orderbook/src/lib.rs:1936-1968 | Exactly which sales to given reserves bring no less than a price. |
| Costs.PurchaseAtRate | pallets/hybrid-orderbook/src/lib.rs:1974-2010 | At a whole rate the quantity cancels: the purchase is within it iff the quote reserve, times 1000, is below the rate times what is left of the base reserve after the fee. |
| Costs.SaleAtRate | pallets/hybrid-orderbook/src/lib.rs:1936-1968 | The same for sales. |
| Costs.BidLegCost | pallets/hybrid-orderbook/src/lib.rs:1344-1412 | What a buying search returns costs no more than the ask exactly when it passes the test; with tests on the order alone under which it always does and never does. |
| Costs.AskLegProceeds | pallets/hybrid-orderbook/src/lib.rs:1344-1412 | What a selling search returns brings no less than the bid exactly when it passes the test; with tests on the order alone under which it always does and never does. |
| Costs.BidSearchIsBestIff | pallets/hybrid-orderbook/src/lib.rs:1344-1412 | Exactly when a buying search fills at the better of pool and ask, in what is paid: its quantity passes the test and no further one would; at a whole price these are two comparisons. |
| Costs.AskSearchIsBestIff | pallets/hybrid-orderbook/src/lib.rs:1344-1412 | Exactly when a selling search fills at the better of pool and bid, in what is received. |
| Costs.PurchaseCostsMore | pallets/hybrid-orderbook/src/lib.rs:1360-1369 | A pool at 100 and an ask at 100: the search buys a unit from the pool, for 101. |
| Costs.CheaperPoolSkipped | pallets/hybrid-orderbook/src/lib.rs:1360-1369 | An ask at 115: the search leaves a pool that asks 112. |
| Costs.SaleBringsLess | pallets/hybrid-orderbook/src/lib.rs:1370-1380 | A bid at 999: the search sells a unit to the pool, for 996. |
| Costs.NeedIsWorthIff | pallets/hybrid-orderbook/src/lib.rs:966-981 | What the book freezes and pays for a bid is the worth at its price exactly when the base asset has no fewer decimals than the quote asset, or that worth is nothing. |
| Costs.WorthIsTenfold | pallets/hybrid-orderbook/src/lib.rs:966-981 | A pool with price 10 and ratio 100, where the book takes the price for 10. |
| Legs.MatchLegsPriced | pallets/hybrid-orderbook/src/lib.rs:1161-1291 | Every pool leg of a match is made at the pool's quote for exactly the reserves that the legs before it left. |
| Legs.FairLegIff | pallets/hybrid-orderbook/src/lib.rs:1161-1291 | Exactly which pool legs of a match cost or bring no worse than a price: those that pass the test on the reserves before them. |
| Legs.CheapOrderLegs | pallets/hybrid-orderbook/src/lib.rs:1161-1291 | A test before the call under which every pool leg of a buying match costs within a price. |
| Legs.DearOrderLegs | pallets/hybrid-orderbook/src/lib.rs:1161-1291 | A test before the call under which every pool leg of a selling match brings a price. |
| Limits.TradesWithinLimitIff | pallets/hybrid-orderbook/src/lib.rs:1062-1070 | All trades of a match respect a limit price exactly when they take no more than the resting orders within the limit offer, in both directions. |
| Limits.DepthKeepsTradesWithin | pallets/hybrid-orderbook/src/lib.rs:1062-1070 | An order no larger than what is on offer within a limit makes no trade beyond it. |
| Limits.DepthKeepsPoolWithin | pallets/hybrid-orderbook/src/lib.rs:1161-1291 | While the asks within a limit hold what remains of a buying order, none of its pool legs takes the pool price past the limit; their cost is another matter. |
| Limits.LimitRespectedIff | pallets/hybrid-orderbook/src/lib.rs:1062-1070 | Exactly when a match respects a limit, in trades and in what its pool legs cost or bring: the trades fit what is on offer within the limit, and every leg passes its test. |
| Limits.LimitHolds | pallets/hybrid-orderbook/src/lib.rs:1052-1070 | In a sound market an order of either direction that passes two tests before the call, on the resting orders and on the pool, respects its limit in trades and pool legs. |
| Limits.LimitBidKeepsPrice | pallets/hybrid-orderbook/src/lib.rs:1052-1070 | With the first test alone a marketable limit bid trades within its limit and keeps the pool price within it. |
| Limits.LimitIsNotHandedOn | pallets/hybrid-orderbook/src/lib.rs:1052-1070 | A run of two calls on a new market after which a limit bid at 1 is marketable, goes through and trades 100 at 2. |
| Limits.LimitLegCostsMore | pallets/hybrid-orderbook/src/lib.rs:1052-1070 | A run of three calls after which a limit bid at 100 passes the first test, goes through and pays the pool 101 for one unit. |
| Rounds.MatchTakesFromLevels | pallets/hybrid-orderbook/src/lib.rs:1161-1262 | At every price the level shrinks by exactly what the match traded there, and no level appears. |
| Rounds.MatchFollowsSearch | pallets/hybrid-orderbook/src/lib.rs:1161-1262 | How a match of either direction divides an order, told from its legs and trades alone: every leg is what the search answers, for the reserves and the quantity left then, at a price whose better levels are all used up, or all that is left once the book is; and at every traded price the search was answered by less than was left, that leg was made, and then the smaller of what was left and the level was traded. |
| Rounds.PoolComesFirst | pallets/hybrid-orderbook/src/lib.rs:1161-1262 | A buyer trades at a price of the book only once the pool has come up to it: at the end of the match the pool price is there, or buying from the pool what was traded there, or any part of it from two base units on, would take it past. |
| Rounds.MatchShifts | pallets/hybrid-orderbook/src/lib.rs:1161-1262 | What a match has recorded has no influence on how it goes on. |
| Effects.SettlePays | pallets/hybrid-orderbook/src/lib.rs:946-993 | Settlement pays every trade in full and once: for every account and both assets the exact balance after it, and the exact freezes. |
| Effects.PayMoves | pallets/hybrid-orderbook/src/lib.rs:1264-1291 | A swap takes exactly its price from the payer and gives exactly its proceeds to the receiver, who may be the same. |
| Effects.PaysIff | pallets/hybrid-orderbook/src/lib.rs:1264-1291 | It is refused exactly when the payer cannot spend that price. |
| Effects.LegsPaid | pallets/hybrid-orderbook/src/lib.rs:1264-1291 | The taker pays for every pool leg of a match and gets its proceeds; nobody else's balance moves. |
| Effects.MatchEffect | pallets/hybrid-orderbook/src/lib.rs:1161-1262 | A successful match as a whole: legs and trades add up to the quantity and were divided by the law above; every balance of every account moves by exactly the sums of its legs and trades, every freeze by exactly the needs of its own trades; the reserves by the legs, each at the pool's quote; every level by what was traded there; and the taker's own side, counters and shares stay. |
| Effects.TakerGetsOrder | pallets/hybrid-orderbook/src/lib.rs:1161-1262 | A buyer gains, and a seller gives, exactly the order's quantity of the base asset less what they traded with own orders, which is nothing when none of theirs rests on the other side. |
| Effects.MarketOrderEffect | pallets/hybrid-orderbook/src/lib.rs:996-1017 | A successful market order is a match of its whole quantity in that sense. |
| Effects.MarketOrderRefusals | pallets/hybrid-orderbook/src/lib.rs:996-1017 | A market order is refused for its quantity exactly when that is zero, or no multiple of the lot size. |
| Effects.LimitOrderEffect | pallets/hybrid-orderbook/src/lib.rs:1056-1083 | A successful limit order, by comparing its price with the pool price itself: beyond it, the order is the last at its price with the next id, the maker's freeze grows by exactly its need, and pool, other side, all balances and all other levels and freezes stay; otherwise its whole quantity is matched in the sense above. |
| Effects.LimitOrderRefusals | pallets/hybrid-orderbook/src/lib.rs:1040-1055 | A limit order is refused for its price exactly when the pool has a price and the order's is no positive multiple of the tick size, and for its quantity exactly when the price passes and that is no positive multiple of the lot size. |
| Effects.RestsIff | pallets/hybrid-orderbook/src/lib.rs:1095-1128 | Exactly when an order can rest: its worth is in range and free, an id is left in its half, and its level exists or there is room for one. |
| Effects.CancelEffect | pallets/hybrid-orderbook/src/lib.rs:1130-1153 | A cancellation goes through exactly when the book of the id's half holds that order at that price, of that owner and with that much; it takes exactly the quantity off that level, which stays even if emptied, and everything else stays. |
| Funding.DepositEffect | pallets/hybrid-orderbook/src/lib.rs:575-702 | A deposit whose amounts are allowed goes through exactly when the payer can spend both and shares are minted; then the payer pays exactly both amounts into the pool, the recipient's shares grow by exactly the minted ones, the supply by those and a first deposit's locked ones, and nobody else changes. |
| Funding.WithdrawalEffect | pallets/hybrid-orderbook/src/lib.rs:709-797 | A withdrawal goes through exactly when the pool allows it and the holder has the shares; then the holder loses exactly these, the recipient gains exactly the redeemed part of each reserve rounded down, the pool loses it, and nobody else changes, also when holder and recipient are one. |
| Funding.SaleEffect | pallets/hybrid-orderbook/src/lib.rs:1426-1519 | A swap of an exact amount in: when it goes through, and that the payer pays exactly that, the recipient gets exactly the pool's output, the reserves move by both, and nobody else changes. |
| Funding.PurchaseEffect | pallets/hybrid-orderbook/src/lib.rs:1426-1519 | The same for an exact amount out. |
| Failures.LegAllowedIff | pallets/hybrid-orderbook/src/lib.rs:1264-1291 | Exactly when a pool leg can be made: it has a price in range, leaves the pool its minimum and the taker can spend it. |
| Failures.MatchFailsIff | pallets/hybrid-orderbook/src/lib.rs:1161-1242 | A match fails on its way exactly when some round of it has a search that fails or asks for a leg that cannot be made. |
| Failures.RunSpends | pallets/hybrid-orderbook/src/lib.rs:1161-1262 | What a run takes from the taker's free funds: the legs, already paid, and the trades, to be settled; for a seller that is exactly the quantity of the order. |
| Failures.MatchSucceedsIff | pallets/hybrid-orderbook/src/lib.rs:1161-1262 | In a sound market a taker without own orders on the other side has the order executed exactly when no round gets stuck, no trade's worth overflows, and they can spend what the legs and trades take. |
| Exchanges.Exchange.constructor | pallets/hybrid-orderbook/src/types.rs:331-356 | A new exchange is the empty market with its two id counters at the start of their halves. |
| Exchanges.Exchange.DoMatchOrder | pallets/hybrid-orderbook/src/lib.rs:1161-1262 | The loop on the trees, pool and ledger does what the specified match does, with the same new state, which `Effects.MatchEffect` describes, or the same failure. |
| Exchanges.Exchange.HandleFilledOrders | pallets/hybrid-orderbook/src/lib.rs:946-993 | The settlement loop does what the specified settlement does, with the same failure. |
| Exchanges.Exchange.DoPlaceOrder | pallets/hybrid-orderbook/src/lib.rs:1095-1128 | Freezing, issuing the id and placing on the tree do what the specified placement does, with the same failure. |
| Exchanges.Exchange.DoLimitOrder | pallets/hybrid-orderbook/src/lib.rs:1028-1093 | Does what the specified limit order does, with the same new state, which `Effects.LimitOrderEffect` describes, or the same failure. |
| Exchanges.Exchange.DoMarketOrder | pallets/hybrid-orderbook/src/lib.rs:996-1017 | Does what the specified market order does, with the same new state, which `Effects.MarketOrderEffect` describes, or the same failure. |
| Exchanges.Exchange.DoCancelOrder | pallets/hybrid-orderbook/src/lib.rs:1130-1153 | Does what the specified cancellation does, as `Effects.CancelEffect` describes it, with the same failure, which changes nothing. |
| Exchanges.Exchange.ChooseAmounts | pallets/hybrid-orderbook/src/lib.rs:587-650 | The branches that choose a deposit's amounts give the specified ones, which are those of `Liquidity.AmountsKeepRatio`, or the same failure. |
| Exchanges.Exchange.CountShares | pallets/hybrid-orderbook/src/lib.rs:666-687 | The branches that count a deposit's shares give the specified number, or the same failure. |
| Exchanges.Exchange.DoAddLiquidity | pallets/hybrid-orderbook/src/lib.rs:575-702 | A deposit, step by step: the reserves, balances and shares that `Funding.DepositEffect` gives, or the same failure and no change. |
| Exchanges.Exchange.DoRemoveLiquidity | pallets/hybrid-orderbook/src/lib.rs:709-797 | A withdrawal, step by step: the reserves, balances and shares that `Funding.WithdrawalEffect` gives, or the same failure and no change. |
| Exchanges.Exchange.DoSwap | pallets/hybrid-orderbook/src/lib.rs:1426-1519 | A single-hop swap, step by step: the reserves and balances that `Funding.SaleEffect` and `Funding.PurchaseEffect` give, or the same failure and no change. |
| Exchanges.Exchange.Submit | pallets/hybrid-orderbook/src/lib.rs:1038-1092 | A call that fails half-way leaves the state before it and reports the specified error; a call that succeeds leaves the specified state. |
| Exchanges.RunCalls | pallets/hybrid-orderbook/src/lib.rs:946-1291 | Every run of calls on the mutable exchange ends in the state of the same run of the specification, so all laws above hold of it. |

## Left out

- MarketRuns.GentleCallKeepsInside: claims nothing for selling matches, which the search above takes past the bids
  (`TradingKeepsAsksAbove` has the half that holds for them), nor for direct swaps, deposits and withdrawals, which do
  not look at the books.
- Limits.LimitHolds: its tests before the call are sufficient; the exact condition, `LimitRespectedIff`, needs the legs
  the search chooses.
- Legs.CheapOrderLegs: works with the price rounded down to whole quote units for one base unit, so that it says nothing
  for prices below one such unit; `FairLegIff` is exact for them. The same holds for `DearOrderLegs`, rounded up.
- Failures.MatchSucceedsIff: leaves out takers that have orders of their own on the other side. For them enough to
  spend is sufficient (`MakersDeliver`), and what the own orders bring back counts as spendable at most
  (`SettledTakerCouldSpend`); which of it comes back in time depends on the order of the trades.
- Rounds.PoolComesFirst: buying only; selling searches record the probes on the other side of the bid, as said above.
- A `Tick` is a value inside its leaf and its `BTreeMap` of orders an ascending sequence: no aliasing, no node layout.
- The asset libraries: `Ledgers` is the contract assumed of them (a freeze within the balance, a release within the
  freeze, withdrawals only of what is not frozen). Existential deposits appear only as the pool's minimum balances.
- The rate of the withdrawal fee: the fee is a parameter, in shares. Errors of the asset libraries are one error.
- Builds without overflow checks: a plain operator out of range is `Trap` here, which is what the code does when built
  with overflow checks; the workspace's profile does not set them, and a release build without them would wrap.
- Which swap directions reach a pool: with the runtime's pool locator the path (quote, base) of an exact-in swap and
  the path (base, quote) of an exact-out swap name another pool. `Op` allows all four, so its laws cover more.
- Other tree widths than the runtime's `u128`.
- More than one pool, pool addresses and their hashing, multi-hop paths and the credit variants of swaps.
- Order expiry, the taker fee and stop orders, which the source stores or declares and does not act on.
- Storage, origins, events, weights, runtime interfaces, and the node's client and runtime: plumbing.

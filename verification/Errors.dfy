/**
  Why a call fails. Errors of the asset libraries are not told apart: they are `LedgerRefused`, except that a freeze
  which is too small to be released is `FrozenUnderflow`. `Trap` is a plain operator that leaves its range.
 */
module Errors {
  import opened Amm
  import opened Liquidity

  datatype MarketError =
    | Trap
    | Refused(error: AmmError)
    | PoolRefused(reason: LiquidityError)
    | LedgerRefused
    | FrozenUnderflow
    | BookRefused
    | WrongDesiredAmount
    | InvalidOrderPrice
    | InvalidOrderQuantity
    | IdsExhausted
}

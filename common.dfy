/**
 * Values shared by both versions of the arbitrage bot: the two tokens of the
 * USDT/USDC pool, the snapshot of chain state one decision cycle reads, and the
 * outcome of a cycle.
 */
module Common {

  datatype Option<T> = None | Some(value: T)

  datatype Result<T, E> = Ok(value: T) | Err(error: E)

  /** The two tokens of the pool. */
  datatype Token = USDT | USDC

  function Other(t: Token): (o: Token)
    ensures o != t
  {
    if t == USDT then USDC else USDT
  }

  /**
   * Everything one decision cycle reads from the chain, read once: the two
   * directional prices the router quotes for a probe amount (`AMOUNT_FOR_PRICE`
   * in the newer logic; 10^18 raw units in the older logic, so there they are
   * close to the opposite reserves), the pool reserves (`pair.getReserves()`,
   * USDC first) and the wallet balances.
   */
  datatype Snapshot = Snapshot(
    usdtPrice: nat,
    usdcPrice: nat,
    usdcReserve: nat,
    usdtReserve: nat,
    usdtBalance: nat,
    usdcBalance: nat)
  {
    function Reserve(t: Token): nat
    {
      if t == USDC then usdcReserve else usdtReserve
    }

    function Balance(t: Token): nat
    {
      if t == USDT then usdtBalance else usdcBalance
    }
  }

  /** Why a cycle ended without trading (the logged early returns). */
  datatype NoOpReason =
    | ThresholdNotReached
    | SameDirectionAsLast
    | InsufficientBalance
    | ImpactTooLarge

  /** Why a cycle threw; the task queue swallows these. */
  datatype Failure =
    | NotEnoughToken(token: Token)   // "User has not enough <token> to swap!"
    | AmountNotCovered               // "User does not have a required amount of tokens to swap!"
    | SwapRejected                   // approve or swapExactTokensForTokens failed
    | ArgumentRejected               // a library call refused its argument

  /** The result of one decision cycle. */
  datatype Outcome =
    | NoOp(reason: NoOpReason)
    | Swapped(from: Token, to: Token, amount: nat)
    | Failed(failure: Failure)
}

/**
 * The older bot logic of `app/main.js`: startup validation of the threshold
 * and the `--amount` argument, and a cycle with the same threshold and
 * direction rules but no sizing and no direction guard, whose balance checks
 * throw. Prices are the two directional router quotes of one snapshot.
 */
module Legacy {
  import opened Common
  import opened Arith
  import opened Pricing

  /** The settings `listenAndSwap` validates: SWAP_THRESHOLD and the amount in raw token units. */
  datatype LegacyConfig = LegacyConfig(swapThreshold: real, amount: nat)

  datatype StartupError = ThresholdNotPositive | InvalidAmount

  /**
   * The checks of `listenAndSwap`: the threshold must be a number above 0
   * (`None` stands for an unset or non-numeric SWAP_THRESHOLD), then a given
   * `--amount` must not be negative; an absent one means 0.
   */
  function Startup(threshold: Option<real>, amountArg: Option<int>): Result<LegacyConfig, StartupError>
  {
    if !(threshold.Some? && threshold.value > 0.0) then Err(ThresholdNotPositive)
    else if amountArg.Some? && !(amountArg.value >= 0) then Err(InvalidAmount)
    else Ok(LegacyConfig(threshold.value, if amountArg.Some? then amountArg.value else 0))
  }

  /** Startup succeeds exactly for a positive threshold and an absent or non-negative amount. */
  lemma StartupAccepts(threshold: Option<real>, amountArg: Option<int>)
    ensures Startup(threshold, amountArg).Ok?
            <==> threshold.Some? && threshold.value > 0.0 && (amountArg.None? || amountArg.value >= 0)
    ensures Startup(threshold, amountArg).Ok? ==>
      && Startup(threshold, amountArg).value.swapThreshold == threshold.value
      && Startup(threshold, amountArg).value.amount as int == (if amountArg.Some? then amountArg.value else 0)
  {
  }

  /** A bad threshold is reported before the amount is looked at. */
  lemma StartupThresholdFirst(threshold: Option<real>, amountArg: Option<int>)
    requires threshold.None? || threshold.value <= 0.0
    ensures Startup(threshold, amountArg) == Err(ThresholdNotPositive)
  {
  }

  lemma StartupDefaults()
    ensures Startup(Some(1.001), None) == Ok(LegacyConfig(1.001, 0))
    ensures Startup(Some(1.001), Some(-1)) == Err(InvalidAmount)
    ensures Startup(Some(0.0), Some(-1)) == Err(ThresholdNotPositive)
  {
  }

  /**
   * Startup accepts thresholds up to 1, and with such a threshold every pair
   * of prices reaches it: every cycle goes on to trade.
   */
  lemma {:induction false} LowThresholdAlwaysReached(usdtPrice: nat, usdcPrice: nat, t: real)
    requires 0.0 < t <= 1.0
    ensures Startup(Some(t), None).Ok?
    ensures ThresholdReached(usdtPrice, usdcPrice, t)
  {
    var p, q := usdtPrice as real, usdcPrice as real;
    if p >= q {
      NonNegProduct(q, 1.0 - t);
      assert q * t <= q;
    } else {
      NonNegProduct(p, 1.0 - t);
      assert p * t <= p;
    }
  }

  // ----- the cycle as written -----

  /**
   * `comparePricesAndSwap` as written: threshold, then direction, then in
   * fixed-amount mode a throw on a zero balance and on `balance <= amount`,
   * in whole-balance mode a throw on a zero balance; a swap the transactions
   * or the router refuse (`swap` asks for a minimum output of 1) is a failure
   * too.
   */
  function LegacyCycleAsWritten(cfg: LegacyConfig, snap: Snapshot, accepted: bool): Outcome
  {
    if !ThresholdReached(snap.usdtPrice, snap.usdcPrice, cfg.swapThreshold) then NoOp(ThresholdNotReached)
    else
      var from := Seller(snap.usdtPrice, snap.usdcPrice, cfg.swapThreshold);
      var balance := snap.Balance(from);
      var wanted := if cfg.amount != 0 then cfg.amount else balance;
      if balance == 0 then Failed(NotEnoughToken(from))
      else if cfg.amount != 0 && balance <= cfg.amount then Failed(AmountNotCovered)
      else if !(accepted && RouterAccepts(wanted, snap.Reserve(from), snap.Reserve(Other(from)))) then Failed(SwapRejected)
      else Swapped(from, Other(from), wanted)
  }

  /** Below the threshold nothing happens, and nothing fails. */
  lemma LegacyThresholdGate(cfg: LegacyConfig, snap: Snapshot, accepted: bool)
    ensures LegacyCycleAsWritten(cfg, snap, accepted) == NoOp(ThresholdNotReached)
            <==> !ThresholdReached(snap.usdtPrice, snap.usdcPrice, cfg.swapThreshold)
    ensures LegacyCycleAsWritten(cfg, snap, accepted).NoOp?
            ==> !ThresholdReached(snap.usdtPrice, snap.usdcPrice, cfg.swapThreshold)
  {
  }

  /**
   * The older prices quote 10^18 raw units, far more than the pool holds: with
   * about 3.35 10^11 USDT and 3.37 10^11 USDC in the pool, each price is the
   * opposite reserve less under one token.
   */
  lemma OlderPriceNearReserve()
    ensures var usdt, usdc := 335444643299, 337000000000;
      && usdc - 1000000 < Quote(1000000000000000000, usdt, usdc) < usdc
      && usdt - 1000000 < Quote(1000000000000000000, usdc, usdt) < usdt
  {
    QuoteBelowReserve(1000000000000000000, 335444643299, 337000000000);
    QuoteBelowReserve(1000000000000000000, 337000000000, 335444643299);
  }

  /** The swap goes USDT to USDC exactly when USDT's price is at least `t` times USDC's. */
  lemma LegacyDirection(cfg: LegacyConfig, snap: Snapshot, accepted: bool)
    requires LegacyCycleAsWritten(cfg, snap, accepted).Swapped?
    ensures var o := LegacyCycleAsWritten(cfg, snap, accepted);
      && (o.from == USDT <==> UsdtMoreExpensive(snap.usdtPrice, snap.usdcPrice, cfg.swapThreshold))
      && o.to == Other(o.from)
      && (o.from == USDC ==> snap.usdcPrice as real >= snap.usdtPrice as real * cfg.swapThreshold)
  {
  }

  /**
   * Fixed-amount mode as written: exactly `amount` is swapped, and only when
   * the balance is strictly above it; a zero balance and a balance not above
   * the amount fail, in that order.
   */
  lemma LegacyFixedAmount(cfg: LegacyConfig, snap: Snapshot, accepted: bool)
    requires cfg.amount != 0
    requires ThresholdReached(snap.usdtPrice, snap.usdcPrice, cfg.swapThreshold)
    ensures var from := Seller(snap.usdtPrice, snap.usdcPrice, cfg.swapThreshold);
      var o := LegacyCycleAsWritten(cfg, snap, accepted);
      && (snap.Balance(from) == 0 ==> o == Failed(NotEnoughToken(from)))
      && (0 < snap.Balance(from) <= cfg.amount ==> o == Failed(AmountNotCovered))
      && (o.Swapped? <==> accepted && snap.Balance(from) > cfg.amount
                          && RouterAccepts(cfg.amount, snap.Reserve(from), snap.Reserve(Other(from))))
      && (o.Swapped? ==> o == Swapped(from, Other(from), cfg.amount))
  {
  }

  /**
   * Whole-balance mode: a zero balance fails, otherwise the entire balance is
   * swapped if the router takes it.
   */
  lemma LegacyWholeBalance(cfg: LegacyConfig, snap: Snapshot)
    requires cfg.amount == 0
    requires ThresholdReached(snap.usdtPrice, snap.usdcPrice, cfg.swapThreshold)
    ensures var from := Seller(snap.usdtPrice, snap.usdcPrice, cfg.swapThreshold);
      LegacyCycleAsWritten(cfg, snap, true)
        == if snap.Balance(from) == 0 then Failed(NotEnoughToken(from))
           else if RouterAccepts(snap.Balance(from), snap.Reserve(from), snap.Reserve(Other(from)))
           then Swapped(from, Other(from), snap.Balance(from))
           else Failed(SwapRejected)
  {
  }

  /** A legacy swap is never of zero tokens and never more than the seller holds. */
  lemma LegacySwapWithinBalance(cfg: LegacyConfig, snap: Snapshot, accepted: bool)
    requires LegacyCycleAsWritten(cfg, snap, accepted).Swapped?
    ensures var o := LegacyCycleAsWritten(cfg, snap, accepted);
      0 < o.amount <= snap.Balance(o.from)
  {
  }

  /**
   * A wallet holding exactly the requested amount is refused: 4 USDC held,
   * 4 requested, USDC 2% dearer.
   */
  lemma ExactBalanceRefused()
    ensures LegacyCycleAsWritten(LegacyConfig(1.001, 4000000),
                                 Snapshot(1000000, 1020000, 1000000000000, 1000000000000, 0, 4000000), true)
            == Failed(AmountNotCovered)
  {
    assert !UsdtMoreExpensive(1000000, 1020000, 1.001);
  }

  // ----- the cycle with the balance check corrected -----

  /**
   * `comparePricesAndSwap` with the covering test read as "the balance is
   * below the amount", as the comment beside it says and as the newer
   * `checkBalance` does: the guarded steps in order, each ending the cycle
   * early with a no-op or a failure.
   */
  method ComparePricesAndSwap(cfg: LegacyConfig, snap: Snapshot, accepted: bool) returns (o: Outcome)
    ensures !ThresholdReached(snap.usdtPrice, snap.usdcPrice, cfg.swapThreshold) ==> o == NoOp(ThresholdNotReached)
    ensures ThresholdReached(snap.usdtPrice, snap.usdcPrice, cfg.swapThreshold) ==>
      var from := Seller(snap.usdtPrice, snap.usdcPrice, cfg.swapThreshold);
      var balance := snap.Balance(from);
      var wanted := if cfg.amount != 0 then cfg.amount else balance;
      && (balance == 0 ==> o == Failed(NotEnoughToken(from)))
      && (0 < balance < wanted ==> o == Failed(AmountNotCovered))
      && (0 < balance && wanted <= balance ==>
            o == if accepted && RouterAccepts(wanted, snap.Reserve(from), snap.Reserve(Other(from)))
                 then Swapped(from, Other(from), wanted)
                 else Failed(SwapRejected))
    ensures !(cfg.amount != 0 && snap.Balance(Seller(snap.usdtPrice, snap.usdcPrice, cfg.swapThreshold)) == cfg.amount)
            ==> o == LegacyCycleAsWritten(cfg, snap, accepted)
  {
    if !ThresholdReached(snap.usdtPrice, snap.usdcPrice, cfg.swapThreshold) {
      return NoOp(ThresholdNotReached);
    }
    var from, to := USDC, USDT;
    if UsdtMoreExpensive(snap.usdtPrice, snap.usdcPrice, cfg.swapThreshold) {
      from, to := USDT, USDC;
    }
    var balance := snap.Balance(from);
    if balance == 0 {
      return Failed(NotEnoughToken(from));
    }
    var amount := balance;
    if cfg.amount != 0 {
      if balance < cfg.amount {
        return Failed(AmountNotCovered);
      }
      amount := cfg.amount;
    }
    if !accepted || !RouterAccepts(amount, snap.Reserve(from), snap.Reserve(to)) {
      return Failed(SwapRejected);
    }
    o := Swapped(from, to, amount);
  }
}

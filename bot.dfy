/**
 * The newer bot logic (the copy of the app functions in `test/unitTests.js`):
 * threshold check, direction choice, a one-field direction guard, balance
 * check and impact-bounded sizing, composed by `comparePricesAndSwap`.
 *
 * Chain reads are a `Snapshot` taken once per cycle; whether the approve and
 * swap transactions go through is the input `accepted`.
 */
module Bot {
  import opened Common
  import opened Pricing
  import opened Sizing
  import opened Events

  /**
   * `lastSwapDirection`: the token the last successful swap bought
   * (`SwapDirection.USDT` / `SwapDirection.USDC`), `Unset` before the first.
   */
  datatype Direction = Unset | BoughtUsdt | BoughtUsdc

  function Bought(t: Token): (d: Direction)
    ensures d != Unset
  {
    if t == USDT then BoughtUsdt else BoughtUsdc
  }

  /** The settings `init` hard-codes: threshold, MAX_PRICE_CHANGE (percent), AMOUNT_FOR_PRICE. */
  datatype Config = Config(swapThreshold: real, maxPriceChange: real, amountForPrice: nat)
  {
    predicate Valid()
    {
      0.0 <= maxPriceChange < 100.0
    }
  }

  /** SWAP_THRESHOLD "1.001", MAX_PRICE_CHANGE "1", AMOUNT_FOR_PRICE one token of 6 decimals. */
  const TEST_CONFIG: Config := Config(1.001, 1.0, 1000000)
  /** AMOUNT: four tokens of 6 decimals. */
  const AMOUNT: nat := 4000000

  /** `checkBalance`: false exactly when the balance is below the amount. */
  predicate CheckBalance(balance: nat, amount: nat)
  {
    !(balance < amount)
  }

  lemma CheckBalanceEmptyWallet()
    ensures !CheckBalance(0, 1000000000)
  {
  }

  /** `findOptimalAmount(token)`: the impact bound computed from the sold token's own reserve. */
  function OptimalAmount(cfg: Config, snap: Snapshot, t: Token): nat
    requires cfg.Valid()
  {
    OptimalAmountClosedForm(snap.Reserve(t), cfg.maxPriceChange, cfg.amountForPrice);
    FindOptimalAmount(snap.Reserve(t), cfg.maxPriceChange, cfg.amountForPrice)
  }

  /**
   * The decision of one cycle, with a zero `amount` meaning "whole balance" in
   * both branches (see `DecideAsWritten` for the USDT branch as written).
   */
  function Decide(cfg: Config, snap: Snapshot, amount: nat, last: Direction): Outcome
    requires cfg.Valid()
  {
    if !ThresholdReached(snap.usdtPrice, snap.usdcPrice, cfg.swapThreshold) then NoOp(ThresholdNotReached)
    else
      var from := Seller(snap.usdtPrice, snap.usdcPrice, cfg.swapThreshold);
      var to := Other(from);
      if last == Bought(to) then NoOp(SameDirectionAsLast)
      else
        var optimal := OptimalAmount(cfg, snap, from);
        var balance := snap.Balance(from);
        if amount != 0 then
          if !CheckBalance(balance, amount) then NoOp(InsufficientBalance)
          else if amount > optimal then NoOp(ImpactTooLarge)
          else Swapped(from, to, amount)
        else
          Swapped(from, to, if balance > optimal then optimal else balance)
  }

  /**
   * A cycle: the decision, unless its swap fails on chain, either because the
   * transactions are not accepted or because the router refuses the trade
   * (a 0-token input, an empty reserve, or a quote below the minimum of 1).
   */
  function Cycle(cfg: Config, snap: Snapshot, amount: nat, last: Direction, accepted: bool): Outcome
    requires cfg.Valid()
  {
    var d := Decide(cfg, snap, amount, last);
    if d.Swapped? && !(accepted && RouterAccepts(d.amount, snap.Reserve(d.from), snap.Reserve(d.to)))
    then Failed(SwapRejected)
    else d
  }

  /** The guard after a cycle: only a completed swap changes it. */
  function After(last: Direction, o: Outcome): Direction
  {
    if o.Swapped? then Bought(o.to) else last
  }

  // ----- properties of one cycle -----

  /** The threshold is checked first: below it nothing else matters. */
  lemma DecideThresholdFirst(cfg: Config, snap: Snapshot, amount: nat, last: Direction)
    requires cfg.Valid()
    ensures Decide(cfg, snap, amount, last) == NoOp(ThresholdNotReached)
            <==> !ThresholdReached(snap.usdtPrice, snap.usdcPrice, cfg.swapThreshold)
  {
  }

  /**
   * A swap sells the token whose price is at least `t` times the other's and
   * buys the other one, and never buys what the previous swap bought.
   */
  lemma DecideSwapDirection(cfg: Config, snap: Snapshot, amount: nat, last: Direction)
    requires cfg.Valid()
    requires Decide(cfg, snap, amount, last).Swapped?
    ensures var o := Decide(cfg, snap, amount, last);
      && ThresholdReached(snap.usdtPrice, snap.usdcPrice, cfg.swapThreshold)
      && o.to == Other(o.from)
      && (o.from == USDT <==> UsdtMoreExpensive(snap.usdtPrice, snap.usdcPrice, cfg.swapThreshold))
      && (o.from == USDT ==> snap.usdtPrice as real >= snap.usdcPrice as real * cfg.swapThreshold)
      && (o.from == USDC ==> snap.usdcPrice as real >= snap.usdtPrice as real * cfg.swapThreshold)
      && last != Bought(o.to)
  {
  }

  /**
   * The direction guard: when USDT is dearer and the last swap bought USDC, or
   * USDC is dearer and the last swap bought USDT, the cycle does nothing.
   */
  lemma DecideGuard(cfg: Config, snap: Snapshot, amount: nat, last: Direction)
    requires cfg.Valid()
    requires ThresholdReached(snap.usdtPrice, snap.usdcPrice, cfg.swapThreshold)
    ensures UsdtMoreExpensive(snap.usdtPrice, snap.usdcPrice, cfg.swapThreshold) && last == BoughtUsdc
            ==> Decide(cfg, snap, amount, last) == NoOp(SameDirectionAsLast)
    ensures !UsdtMoreExpensive(snap.usdtPrice, snap.usdcPrice, cfg.swapThreshold) && last == BoughtUsdt
            ==> Decide(cfg, snap, amount, last) == NoOp(SameDirectionAsLast)
  {
  }

  /**
   * Fixed-amount mode: exactly `amount` is swapped, and only when the balance
   * covers it and it is within the impact bound; the balance check comes
   * first, and an amount over the bound is rejected, not clamped.
   */
  lemma DecideFixedAmount(cfg: Config, snap: Snapshot, amount: nat, last: Direction)
    requires cfg.Valid() && amount != 0
    requires ThresholdReached(snap.usdtPrice, snap.usdcPrice, cfg.swapThreshold)
    requires last != Bought(Other(Seller(snap.usdtPrice, snap.usdcPrice, cfg.swapThreshold)))
    ensures var from := Seller(snap.usdtPrice, snap.usdcPrice, cfg.swapThreshold);
      var o := Decide(cfg, snap, amount, last);
      && (snap.Balance(from) < amount ==> o == NoOp(InsufficientBalance))
      && (snap.Balance(from) >= amount && amount > OptimalAmount(cfg, snap, from) ==> o == NoOp(ImpactTooLarge))
      && (o.Swapped? <==> snap.Balance(from) >= amount && amount <= OptimalAmount(cfg, snap, from))
      && (o.Swapped? ==> o == Swapped(from, Other(from), amount))
  {
  }

  /** Whole-balance mode: the smaller of the balance and the impact bound is swapped. */
  lemma DecideWholeBalance(cfg: Config, snap: Snapshot, last: Direction)
    requires cfg.Valid()
    requires ThresholdReached(snap.usdtPrice, snap.usdcPrice, cfg.swapThreshold)
    requires last != Bought(Other(Seller(snap.usdtPrice, snap.usdcPrice, cfg.swapThreshold)))
    ensures var from := Seller(snap.usdtPrice, snap.usdcPrice, cfg.swapThreshold);
      var bound := OptimalAmount(cfg, snap, from);
      Decide(cfg, snap, 0, last)
        == Swapped(from, Other(from), if snap.Balance(from) <= bound then snap.Balance(from) else bound)
  {
  }

  /** A swap never exceeds the seller's balance nor the impact bound. */
  lemma DecideWithinLimits(cfg: Config, snap: Snapshot, amount: nat, last: Direction)
    requires cfg.Valid()
    requires Decide(cfg, snap, amount, last).Swapped?
    ensures var o := Decide(cfg, snap, amount, last);
      o.amount <= snap.Balance(o.from) && o.amount <= OptimalAmount(cfg, snap, o.from)
  {
  }

  /**
   * A swap the cycle decides, deposited into the sold token's reserve with the
   * output reserve held fixed (a one-sided deposit, as in the derivation of the
   * bound), keeps that token's router quote within `maxPriceChange` percent.
   */
  lemma {:induction false} DecideKeepsImpact(cfg: Config, snap: Snapshot, amount: nat, last: Direction)
    requires cfg.Valid() && cfg.amountForPrice > 0
    requires Decide(cfg, snap, amount, last).Swapped?
    requires snap.Reserve(Decide(cfg, snap, amount, last).to) > 0
    ensures var o := Decide(cfg, snap, amount, last);
      SpotQuote(cfg.amountForPrice, snap.Reserve(o.from) + o.amount, snap.Reserve(o.to))
        >= (1.0 - cfg.maxPriceChange / 100.0) * SpotQuote(cfg.amountForPrice, snap.Reserve(o.from), snap.Reserve(o.to))
  {
    var o := Decide(cfg, snap, amount, last);
    var r, m, a := snap.Reserve(o.from), cfg.maxPriceChange, cfg.amountForPrice;
    OptimalAmountClosedForm(r, m, a);
    HeadroomIsExcess(r, m, a);
    assert o.amount <= FindOptimalAmount(r, m, a);
    assert (r + o.amount) as real <= MaxReserveIn(r, m, a);
    ImpactBoundIff(r, snap.Reserve(o.to), m, a, o.amount);
  }

  /**
   * The bound holds the output reserve fixed, as a one-sided deposit would,
   * but a swap also takes its output from that reserve. With both reserves at
   * 10^12, a one-token probe and a 1% bound, swapping the whole allowance
   * moves the sold token's quote by about 2%.
   */
  lemma SwapOfBoundExceedsImpact()
    ensures var r, a := 1000000000000, 1000000;
      var x := FindOptimalAmount(r, 1.0, a);
      && x == 10101020171
      && Quote(x, r, r) == 9970308949
      && SpotQuote(a, r + x, r - Quote(x, r, r)) < 0.985 * SpotQuote(a, r, r)
      && SpotQuote(a, r + x, r - Quote(x, r, r)) > 0.98 * SpotQuote(a, r, r)
  {
    var r, a := 1000000000000, 1000000;
    OptimalAmountClosedForm(r, 1.0, a);
    assert Headroom(r, 1.0, a) == 1000000997000000.0 / 99000.0;
    assert FindOptimalAmount(r, 1.0, a) == 10101020171;
    var x := 10101020171;
    assert Quote(x, r, r) == 10070717110487000000000000 / 1010070717110487;
    assert SpotQuote(a, r + x, r - 9970308949) == 987059601977847000.0 / 1010102017171.0;
  }

  /**
   * With the hard-coded settings, one token requested, and the guard left at
   * USDC by the preceding direct USDT to USDC swap, a funded cycle on the
   * fork's prices sells one USDC for USDT: the guard does not block the
   * opposite direction.
   */
  lemma ForkCycleSellsUsdc(snap: Snapshot)
    requires snap.usdtPrice == 992085 && snap.usdcPrice == 1001938
    requires snap.usdcBalance >= 1000000
    requires OptimalAmount(TEST_CONFIG, snap, USDC) >= 1000000
    ensures Decide(TEST_CONFIG, snap, 1000000, BoughtUsdc) == Swapped(USDC, USDT, 1000000)
  {
    ForkPricesSellUsdc();
  }

  /**
   * A cycle that completes a swap trades what was decided, a positive amount
   * within the balance, which the router quotes at 1 unit or more.
   */
  lemma CycleSwapIsExecutable(cfg: Config, snap: Snapshot, amount: nat, last: Direction, accepted: bool)
    requires cfg.Valid()
    requires Cycle(cfg, snap, amount, last, accepted).Swapped?
    ensures var o := Cycle(cfg, snap, amount, last, accepted);
      && o == Decide(cfg, snap, amount, last)
      && accepted
      && 0 < o.amount <= snap.Balance(o.from)
      && GetAmountOut(o.amount, snap.Reserve(o.from), snap.Reserve(o.to)).Some?
      && GetAmountOut(o.amount, snap.Reserve(o.from), snap.Reserve(o.to)).value >= 1
  {
    var o := Cycle(cfg, snap, amount, last, accepted);
    RouterAcceptsIff(o.amount, snap.Reserve(o.from), snap.Reserve(o.to));
  }

  /**
   * Whole-balance mode with an empty wallet decides a 0-token swap, which the
   * router refuses: the cycle fails and the guard stays where it was.
   */
  lemma EmptyWalletSwapFails(cfg: Config, snap: Snapshot, last: Direction, accepted: bool)
    requires cfg.Valid()
    requires ThresholdReached(snap.usdtPrice, snap.usdcPrice, cfg.swapThreshold)
    requires last != Bought(Other(Seller(snap.usdtPrice, snap.usdcPrice, cfg.swapThreshold)))
    requires snap.Balance(Seller(snap.usdtPrice, snap.usdcPrice, cfg.swapThreshold)) == 0
    ensures var from := Seller(snap.usdtPrice, snap.usdcPrice, cfg.swapThreshold);
      && Decide(cfg, snap, 0, last) == Swapped(from, Other(from), 0)
      && Cycle(cfg, snap, 0, last, accepted) == Failed(SwapRejected)
      && After(last, Cycle(cfg, snap, 0, last, accepted)) == last
  {
    var from := Seller(snap.usdtPrice, snap.usdcPrice, cfg.swapThreshold);
    RouterAcceptsIff(0, snap.Reserve(from), snap.Reserve(Other(from)));
  }

  // ----- the zero test of the USDT branch, as written -----

  /**
   * `comparePricesAndSwap` as written: past the guard, the USDT branch
   * evaluates `parseUnits(0, 6)` with a number, which ethers v5's
   * `parseUnits` refuses (it takes a decimal string), so every such cycle
   * throws whatever the amount. The USDC branch tests `amount != 0` and
   * behaves as intended.
   */
  function DecideAsWritten(cfg: Config, snap: Snapshot, amount: nat, last: Direction): Outcome
    requires cfg.Valid()
  {
    if !ThresholdReached(snap.usdtPrice, snap.usdcPrice, cfg.swapThreshold) then NoOp(ThresholdNotReached)
    else
      var from := Seller(snap.usdtPrice, snap.usdcPrice, cfg.swapThreshold);
      if last == Bought(Other(from)) then NoOp(SameDirectionAsLast)
      else if from == USDT then Failed(ArgumentRejected)
      else Decide(cfg, snap, amount, last)
  }

  /**
   * As written, no cycle that gets past the guard ever sells USDT: it fails,
   * for every amount, while the intended rule never fails and, for a zero
   * amount, sells the smaller of the USDT balance and the bound.
   */
  lemma UsdtBranchAsWritten(cfg: Config, snap: Snapshot, amount: nat, last: Direction)
    requires cfg.Valid()
    requires ThresholdReached(snap.usdtPrice, snap.usdcPrice, cfg.swapThreshold)
    requires UsdtMoreExpensive(snap.usdtPrice, snap.usdcPrice, cfg.swapThreshold)
    requires last != BoughtUsdc
    ensures DecideAsWritten(cfg, snap, amount, last) == Failed(ArgumentRejected)
    ensures !Decide(cfg, snap, amount, last).Failed?
    ensures var bound := OptimalAmount(cfg, snap, USDT);
      amount == 0 ==>
        Decide(cfg, snap, amount, last)
          == Swapped(USDT, USDC, if snap.usdtBalance <= bound then snap.usdtBalance else bound)
  {
  }

  /** Outside the USDT branch past the guard, as written and intended agree. */
  lemma AsWrittenAgreesElsewhere(cfg: Config, snap: Snapshot, amount: nat, last: Direction)
    requires cfg.Valid()
    requires !(ThresholdReached(snap.usdtPrice, snap.usdcPrice, cfg.swapThreshold)
               && UsdtMoreExpensive(snap.usdtPrice, snap.usdcPrice, cfg.swapThreshold)
               && last != BoughtUsdc)
    ensures DecideAsWritten(cfg, snap, amount, last) == Decide(cfg, snap, amount, last)
  {
  }

  /**
   * A concrete input: 5 USDT in the wallet, USDT 2% dearer, nothing swapped
   * yet. As written the cycle throws both for AMOUNT and for 0; intended, it
   * sells AMOUNT, or the whole 5 USDT.
   */
  lemma UsdtBranchCounterexample()
    ensures var snap := Snapshot(1020000, 1000000, 1000000000000, 1000000000000, 5000000, 0);
      && DecideAsWritten(TEST_CONFIG, snap, AMOUNT, Unset) == Failed(ArgumentRejected)
      && DecideAsWritten(TEST_CONFIG, snap, 0, Unset) == Failed(ArgumentRejected)
      && Decide(TEST_CONFIG, snap, AMOUNT, Unset) == Swapped(USDT, USDC, AMOUNT)
      && Decide(TEST_CONFIG, snap, 0, Unset) == Swapped(USDT, USDC, 5000000)
  {
    var snap := Snapshot(1020000, 1000000, 1000000000000, 1000000000000, 5000000, 0);
    assert UsdtMoreExpensive(1020000, 1000000, 1.001);
    assert OptimalAmount(TEST_CONFIG, snap, USDT) >= 5000000 by {
      OptimalAmountClosedForm(1000000000000, 1.0, 1000000);
      assert Headroom(1000000000000, 1.0, 1000000) >= 5000000.0;
    }
  }

  // ----- a sequence of cycles run by the task queue -----

  /** The guard after a sequence of outcomes. */
  function Replay(last: Direction, outs: seq<Outcome>): Direction
  {
    if outs == [] then last else After(Replay(last, outs[..|outs| - 1]), outs[|outs| - 1])
  }

  /**
   * The queue runs every task in order; each cycle sees the guard left by the
   * cycles before it, and a failed cycle does not stop the ones after it.
   */
  function Run(cfg: Config, amount: nat, last: Direction, snaps: seq<Snapshot>, accepts: seq<bool>): (outs: seq<Outcome>)
    requires cfg.Valid() && |snaps| == |accepts|
    ensures |outs| == |snaps|
  {
    if snaps == [] then []
    else
      var n := |snaps| - 1;
      var prev := Run(cfg, amount, last, snaps[..n], accepts[..n]);
      prev + [Cycle(cfg, snaps[n], amount, Replay(last, prev), accepts[n])]
  }

  /** In every run, each swap buys something other than what the guard held just before. */
  lemma {:induction false} RunRespectsGuard(cfg: Config, amount: nat, last: Direction, snaps: seq<Snapshot>, accepts: seq<bool>, j: nat)
    requires cfg.Valid() && |snaps| == |accepts| && j < |snaps|
    requires Run(cfg, amount, last, snaps, accepts)[j].Swapped?
    ensures var outs := Run(cfg, amount, last, snaps, accepts);
      Bought(outs[j].to) != Replay(last, outs[..j])
  {
    var n := |snaps| - 1;
    var outs := Run(cfg, amount, last, snaps, accepts);
    var prev := Run(cfg, amount, last, snaps[..n], accepts[..n]);
    assert outs == prev + [outs[n]];
    if j < n {
      assert outs[..j] == prev[..j];
      RunRespectsGuard(cfg, amount, last, snaps[..n], accepts[..n], j);
    } else {
      assert outs[..j] == prev;
      DecideSwapDirection(cfg, snaps[n], amount, Replay(last, prev));
    }
  }

  /** While no swap buys a token other than `t`, a guard holding `t` keeps holding it. */
  lemma {:induction false} ReplayKeeps(last: Direction, outs: seq<Outcome>, i: nat, j: nat, t: Token)
    requires i <= j <= |outs|
    requires Replay(last, outs[..i]) == Bought(t)
    requires forall k :: i <= k < j ==> !(outs[k].Swapped? && outs[k].to != t)
    ensures Replay(last, outs[..j]) == Bought(t)
  {
    if j > i {
      ReplayKeeps(last, outs, i, j - 1, t);
      assert outs[..j][..j - 1] == outs[..j - 1];
    }
  }

  /**
   * The guard at work over a run: between two swaps into the same token there
   * is a swap into the other one, and the first swap never buys what the guard
   * held at the start.
   */
  lemma {:induction false} NoRepeatedSwap(cfg: Config, amount: nat, last: Direction, snaps: seq<Snapshot>, accepts: seq<bool>, i: nat, j: nat)
    requires cfg.Valid() && |snaps| == |accepts| && i < j < |snaps|
    requires var outs := Run(cfg, amount, last, snaps, accepts);
      outs[i].Swapped? && outs[j].Swapped? && outs[i].to == outs[j].to
    ensures var outs := Run(cfg, amount, last, snaps, accepts);
      exists k :: i < k < j && outs[k].Swapped? && outs[k].to != outs[i].to
  {
    var outs := Run(cfg, amount, last, snaps, accepts);
    var t := outs[i].to;
    if !exists k :: i < k < j && outs[k].Swapped? && outs[k].to != t {
      assert outs[..i + 1][..i] == outs[..i];
      assert Replay(last, outs[..i + 1]) == Bought(t);
      ReplayKeeps(last, outs, i + 1, j, t);
      RunRespectsGuard(cfg, amount, last, snaps, accepts, j);
      assert false;
    }
  }

  lemma {:induction false} FirstSwapRespectsStart(cfg: Config, amount: nat, last: Direction, snaps: seq<Snapshot>, accepts: seq<bool>, j: nat)
    requires cfg.Valid() && |snaps| == |accepts| && j < |snaps|
    requires var outs := Run(cfg, amount, last, snaps, accepts);
      outs[j].Swapped? && forall k :: 0 <= k < j ==> !outs[k].Swapped?
    ensures Bought(Run(cfg, amount, last, snaps, accepts)[j].to) != last
  {
    var outs := Run(cfg, amount, last, snaps, accepts);
    NoSwapKeepsStart(last, outs, j);
    RunRespectsGuard(cfg, amount, last, snaps, accepts, j);
  }

  lemma {:induction false} NoSwapKeepsStart(last: Direction, outs: seq<Outcome>, j: nat)
    requires j <= |outs|
    requires forall k :: 0 <= k < j ==> !outs[k].Swapped?
    ensures Replay(last, outs[..j]) == last
  {
    if j > 0 {
      NoSwapKeepsStart(last, outs, j - 1);
      assert outs[..j][..j - 1] == outs[..j - 1];
    }
  }

  // ----- the bot's mutable state -----

  class Bot {
    /** The module-global `lastSwapDirection`. */
    var lastSwapDirection: Direction

    constructor ()
      ensures lastSwapDirection == Unset
    {
      lastSwapDirection := Unset;
    }

    /**
     * `swap`: submit the trade with a minimum output of 1; only once the
     * router executed it does the guard record the token bought.
     */
    method Swap(from: Token, to: Token, amount: nat, snap: Snapshot, accepted: bool) returns (o: Outcome)
      modifies this
      ensures accepted && RouterAccepts(amount, snap.Reserve(from), snap.Reserve(to)) ==>
        o == Swapped(from, to, amount) && lastSwapDirection == Bought(to)
      ensures !(accepted && RouterAccepts(amount, snap.Reserve(from), snap.Reserve(to))) ==>
        o == Failed(SwapRejected) && lastSwapDirection == old(lastSwapDirection)
    {
      if !accepted || !RouterAccepts(amount, snap.Reserve(from), snap.Reserve(to)) {
        return Failed(SwapRejected);
      }
      if to == USDC {
        lastSwapDirection := BoughtUsdc;
      } else if to == USDT {
        lastSwapDirection := BoughtUsdt;
      }
      o := Swapped(from, to, amount);
    }

    /**
     * `comparePricesAndSwap`: the guarded steps with their early returns; the
     * guard changes only when a swap goes through.
     */
    method ComparePricesAndSwap(cfg: Config, snap: Snapshot, amount: nat, accepted: bool) returns (o: Outcome)
      requires cfg.Valid()
      modifies this
      ensures o == Cycle(cfg, snap, amount, old(lastSwapDirection), accepted)
      ensures o.Swapped? ==> lastSwapDirection == Bought(o.to)
      ensures !o.Swapped? ==> lastSwapDirection == old(lastSwapDirection)
    {
      if !ThresholdReached(snap.usdtPrice, snap.usdcPrice, cfg.swapThreshold) {
        return NoOp(ThresholdNotReached);
      }
      var from, to := USDC, USDT;
      if UsdtMoreExpensive(snap.usdtPrice, snap.usdcPrice, cfg.swapThreshold) {
        from, to := USDT, USDC;
      }
      if lastSwapDirection == Bought(to) {
        return NoOp(SameDirectionAsLast);
      }
      var optimalAmount := OptimalAmount(cfg, snap, from);
      if amount != 0 {
        if !CheckBalance(snap.Balance(from), amount) {
          return NoOp(InsufficientBalance);
        }
        if amount > optimalAmount {
          return NoOp(ImpactTooLarge);
        }
        o := Swap(from, to, amount, snap, accepted);
      } else {
        var balance := snap.Balance(from);
        if !CheckBalance(snap.Balance(from), balance) {
          return NoOp(InsufficientBalance);
        }
        if balance > optimalAmount {
          balance := optimalAmount;
        }
        o := Swap(from, to, balance, snap, accepted);
      }
    }

    /**
     * The task queue drained: one cycle per pending task, oldest first, each
     * on the chain state current when it runs; a failed task is swallowed and
     * the next one still runs.
     */
    method Drain(q: TaskQueue, cfg: Config, amount: nat, snaps: seq<Snapshot>, accepts: seq<bool>)
      returns (outs: seq<Outcome>)
      requires cfg.Valid() && |snaps| == |q.pending| && |accepts| == |q.pending|
      modifies this, q
      ensures q.pending == []
      ensures outs == Run(cfg, amount, old(lastSwapDirection), snaps, accepts)
      ensures lastSwapDirection == Replay(old(lastSwapDirection), outs)
    {
      ghost var start := lastSwapDirection;
      outs := [];
      var i := 0;
      while i < |snaps|
        invariant 0 <= i <= |snaps|
        invariant q.pending == old(q.pending)[i..]
        invariant outs == Run(cfg, amount, start, snaps[..i], accepts[..i])
        invariant lastSwapDirection == Replay(start, outs)
      {
        assert snaps[..i + 1][..i] == snaps[..i];
        assert accepts[..i + 1][..i] == accepts[..i];
        q.pending := q.pending[1..];
        var o := ComparePricesAndSwap(cfg, snaps[i], amount, accepts[i]);
        outs := outs + [o];
        assert outs[..|outs| - 1] == outs[..i];
        i := i + 1;
      }
      assert snaps[..i] == snaps && accepts[..i] == accepts;
    }
  }
}

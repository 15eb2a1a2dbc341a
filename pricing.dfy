/**
 * Threshold and direction rules over the two directional prices, and the
 * router's quote formula that produces those prices.
 *
 * The source compares prices as floats (`toUnsafeFloat`, or a JS `Number`
 * times the threshold string); here the comparison is on exact rationals.
 */
module Pricing {
  import opened Common
  import opened Arith

  /** One price is at least `t` times the other. */
  predicate ThresholdReached(usdtPrice: nat, usdcPrice: nat, t: real)
  {
    usdtPrice as real >= usdcPrice as real * t || usdcPrice as real >= usdtPrice as real * t
  }

  /** USDT is the token to sell: its price is at least `t` times the USDC price. */
  predicate UsdtMoreExpensive(usdtPrice: nat, usdcPrice: nat, t: real)
  {
    usdtPrice as real >= usdcPrice as real * t
  }

  /**
   * The token a cycle sells once the threshold is reached: it is `t` times
   * dearer than the other, and for `t > 1` it is the only token that is.
   */
  function Seller(usdtPrice: nat, usdcPrice: nat, t: real): (s: Token)
    ensures ThresholdReached(usdtPrice, usdcPrice, t) ==>
      && (s == USDT ==> usdtPrice as real >= usdcPrice as real * t)
      && (s == USDC ==> usdcPrice as real >= usdtPrice as real * t)
    ensures t > 1.0 && (usdtPrice > 0 || usdcPrice > 0) && ThresholdReached(usdtPrice, usdcPrice, t) ==>
      && (s == USDT <==> usdtPrice as real >= usdcPrice as real * t)
      && (s == USDC <==> usdcPrice as real >= usdtPrice as real * t)
  {
    RatioExclusive(usdtPrice as real, usdcPrice as real, t);
    if UsdtMoreExpensive(usdtPrice, usdcPrice, t) then USDT else USDC
  }

  lemma ThresholdSymmetric(p: nat, q: nat, t: real)
    ensures ThresholdReached(p, q, t) <==> ThresholdReached(q, p, t)
  {
  }

  /** With a threshold above 1 and a nonzero price, the two directions never both hold. */
  lemma DirectionsExclusive(usdtPrice: nat, usdcPrice: nat, t: real)
    requires t > 1.0
    requires usdtPrice > 0 || usdcPrice > 0
    ensures !(usdtPrice as real >= usdcPrice as real * t && usdcPrice as real >= usdtPrice as real * t)
  {
    RatioExclusive(usdtPrice as real, usdcPrice as real, t);
  }

  lemma RatioExclusive(p: real, q: real, t: real)
    ensures t > 1.0 && p >= 0.0 && q >= 0.0 && (p > 0.0 || q > 0.0) ==> !(p >= q * t && q >= p * t)
  {
    if t > 1.0 && p >= 0.0 && q >= 0.0 && (p > 0.0 || q > 0.0) {
      if p == 0.0 {
        ScaleUp(q, t);
      } else if p >= q * t {
        var pt := p * t;
        ScaleUp(p, t);
        var ptt := pt * t;
        ScaleUp(pt, t);
        assert (pt - q) * t == ptt - q * t;
        assert q * t <= p && p < pt && pt < ptt;
        assert ptt - q * t > 0.0;
        PositiveFactor(pt - q, t);
      }
    }
  }

  /** Equal prices reach the threshold exactly when the price is 0 or the threshold is at most 1. */
  lemma EqualPricesThreshold(p: nat, t: real)
    ensures ThresholdReached(p, p, t) <==> (p == 0 || t <= 1.0)
  {
    if p > 0 && t > 1.0 {
      ScaleUp(p as real, t);
    }
  }

  /** The prices the test file expects on its fork (1001938 for USDC, 992085 for USDT) at threshold 1.001. */
  lemma ForkPricesSellUsdc()
    ensures ThresholdReached(992085, 1001938, 1.001)
    ensures Seller(992085, 1001938, 1.001) == USDC
  {
  }

  // ----- the external router (assumption, not repository code) -----

  /**
   * `getAmountOut` of the Uniswap V2 periphery library: the fee-adjusted
   * constant-product rule of section 3.2.1 of the Uniswap V2 Core whitepaper.
   * The router reverts (`None`) on a zero input amount or an empty reserve.
   */
  function GetAmountOut(amountIn: nat, reserveIn: nat, reserveOut: nat): Option<nat>
  {
    if amountIn == 0 || reserveIn == 0 || reserveOut == 0 then None
    else Some(Quote(amountIn, reserveIn, reserveOut))
  }

  /** The floored quote itself, defined whenever the input reserve is nonzero. */
  function Quote(amountIn: nat, reserveIn: nat, reserveOut: nat): nat
    requires reserveIn > 0
  {
    var weighted: nat := amountIn * 997;
    var numerator: nat := weighted * reserveOut;
    var denominator: nat := reserveIn * 1000 + weighted;
    numerator / denominator
  }

  /**
   * `swapExactTokensForTokens(amount, 1, …)`: the router executes the trade
   * only when it can quote it and the quote meets the minimum output of 1.
   */
  predicate RouterAccepts(amountIn: nat, reserveIn: nat, reserveOut: nat)
  {
    GetAmountOut(amountIn, reserveIn, reserveOut).Some? && GetAmountOut(amountIn, reserveIn, reserveOut).value >= 1
  }

  /**
   * The router accepts a trade exactly when both reserves are nonzero and the
   * fee-adjusted input times the output reserve covers the denominator; in
   * particular it never accepts a trade of 0 tokens.
   */
  lemma {:induction false} RouterAcceptsIff(amountIn: nat, reserveIn: nat, reserveOut: nat)
    ensures RouterAccepts(amountIn, reserveIn, reserveOut)
            <==> amountIn > 0 && reserveIn > 0 && reserveOut > 0
                 && amountIn * 997 * reserveOut >= reserveIn * 1000 + amountIn * 997
    ensures !RouterAccepts(0, reserveIn, reserveOut)
  {
    if amountIn > 0 && reserveIn > 0 && reserveOut > 0 {
      var w: nat := amountIn * 997;
      var n: nat := w * reserveOut;
      var d: nat := reserveIn * 1000 + w;
      assert Quote(amountIn, reserveIn, reserveOut) == n / d;
      QuotientAtLeastOne(n, d);
    }
  }

  lemma QuotientAtLeastOne(n: nat, d: nat)
    requires d > 0
    ensures n / d >= 1 <==> n >= d
  {
    if n >= d {
      QuotientAtLeast(n, d, 1);
    }
  }

  /** A quote never drains the output reserve. */
  lemma {:induction false} QuoteBelowReserve(amountIn: nat, reserveIn: nat, reserveOut: nat)
    requires reserveIn > 0 && reserveOut > 0
    ensures Quote(amountIn, reserveIn, reserveOut) < reserveOut
  {
    var w: nat := amountIn * 997;
    var n: nat := w * reserveOut;
    var d: nat := reserveIn * 1000 + w;
    assert Quote(amountIn, reserveIn, reserveOut) == n / d;
    assert reserveOut * d == reserveOut * (reserveIn * 1000) + n;
    assert reserveOut * (reserveIn * 1000) > 0;
    DivBelow(n, d, reserveOut);
  }

  /** p * (1000 p + c) <= r * (1000 r + c) for p <= r. */
  lemma SquareTermMonotone(p: nat, r: nat, c: nat)
    requires p <= r
    ensures p * (1000 * p + c) <= r * (1000 * r + c)
  {
    MulLeft(p, r, 1000 * p + c);
    MulLeft(1000 * p + c, 1000 * r + c, r);
  }

  /**
   * The token the pool holds more of quotes the lower price: selling one
   * reference unit of it returns no more than selling one unit of the other.
   */
  lemma {:induction false} PlentifulTokenIsCheaper(a: nat, richReserve: nat, poorReserve: nat)
    requires poorReserve > 0 && poorReserve <= richReserve
    ensures Quote(a, richReserve, poorReserve) <= Quote(a, poorReserve, richReserve)
  {
    var c: nat := a * 997;
    assert Quote(a, richReserve, poorReserve) == (c * poorReserve) / (richReserve * 1000 + c);
    assert Quote(a, poorReserve, richReserve) == (c * richReserve) / (poorReserve * 1000 + c);
    FractionCompare(c, poorReserve, richReserve);
  }

  lemma FractionCompare(c: nat, p: nat, r: nat)
    requires 0 < p <= r
    ensures (c * p) / (r * 1000 + c) <= (c * r) / (p * 1000 + c)
  {
    var d1: nat := r * 1000 + c;
    var d2: nat := p * 1000 + c;
    assert p * d2 <= r * d1 by { SquareTermMonotone(p, r, c); }
    assert c * (p * d2) <= c * (r * d1) by { MulLeft(p * d2, r * d1, c); }
    assert (c * p) * d2 <= (c * r) * d1 by { MulAssoc(c, p, d2); MulAssoc(c, r, d1); }
    DivMonotone(c * p, d1, c * r, d2);
  }

  /**
   * With prices taken from the router, a pool holding at least as much USDT as
   * USDC never makes USDT the token to sell (threshold above 1, USDC price
   * nonzero): the bot sells the scarcer token.
   */
  lemma {:induction false} PoolHeavyInUsdtSellsUsdc(a: nat, usdcReserve: nat, usdtReserve: nat, t: real)
    requires usdcReserve > 0 && usdcReserve <= usdtReserve && t > 1.0
    requires Quote(a, usdcReserve, usdtReserve) > 0
    ensures !UsdtMoreExpensive(Quote(a, usdtReserve, usdcReserve), Quote(a, usdcReserve, usdtReserve), t)
  {
    PlentifulTokenIsCheaper(a, usdtReserve, usdcReserve);
    NotScaledAbove(Quote(a, usdtReserve, usdcReserve), Quote(a, usdcReserve, usdtReserve), t);
  }

  lemma NotScaledAbove(p: nat, q: nat, t: real)
    requires 0 < q && p <= q && t > 1.0
    ensures !(p as real >= q as real * t)
  {
    ScaleUp(q as real, t);
  }

  /** Equal reserves give equal prices, so a threshold above 1 is not reached unless the price is 0. */
  lemma {:induction false} BalancedPoolDoesNotTrigger(a: nat, reserve: nat, t: real)
    requires reserve > 0 && t > 1.0
    requires Quote(a, reserve, reserve) > 0
    ensures !ThresholdReached(Quote(a, reserve, reserve), Quote(a, reserve, reserve), t)
  {
    EqualPricesThreshold(Quote(a, reserve, reserve), t);
  }
}

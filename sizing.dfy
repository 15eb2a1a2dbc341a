/**
 * Impact-bounded trade sizing (`findOptimalAmount`): the largest amount of the
 * sold token that, once added to its pool reserve with the other reserve held
 * fixed (a one-sided deposit), moves the router's spot quote of that token by
 * at most `maxPriceChange` percent.
 *
 * The source computes with `FixedNumber` (18 decimals) and keeps the integer
 * part of the decimal string; here the arithmetic is on exact rationals.
 */
module Sizing {
  import opened Arith

  /** The part of a decimal before its ".": truncation toward zero. */
  function IntegerPart(x: real): (i: int)
    ensures x >= 0.0 ==> i >= 0 && i as real <= x < i as real + 1.0
    ensures x < 0.0 ==> i <= 0 && i as real - 1.0 < x <= i as real
  {
    if x >= 0.0 then x.Floor else -((-x).Floor)
  }

  /**
   * `maxReserveIn`: the reserve of the sold token beyond which its quote falls
   * by more than `maxPriceChange` percent.
   */
  function MaxReserveIn(reserve: nat, maxPriceChange: real, amountForPrice: nat): real
    requires 0.0 <= maxPriceChange < 100.0
  {
    (100000.0 * reserve as real + 997.0 * maxPriceChange * amountForPrice as real)
      / (1000.0 * (100.0 - maxPriceChange))
  }

  /** `findOptimalAmount`: the integer part of `maxReserveIn - reserve`. */
  function FindOptimalAmount(reserve: nat, maxPriceChange: real, amountForPrice: nat): int
    requires 0.0 <= maxPriceChange < 100.0
  {
    IntegerPart(MaxReserveIn(reserve, maxPriceChange, amountForPrice) - reserve as real)
  }

  /** The exact headroom `maxReserveIn - reserve`, with the reserve cancelled out. */
  function Headroom(reserve: nat, m: real, a: nat): real
    requires 0.0 <= m < 100.0
  {
    Share(m, 1000.0 * reserve as real + 997.0 * a as real)
  }

  /** The fraction m k / (1000 (100 - m)) of a weighted reserve k. */
  function Share(m: real, k: real): real
    requires m < 100.0
  {
    m * k / (1000.0 * (100.0 - m))
  }

  lemma HeadroomNonNegative(reserve: nat, m: real, a: nat)
    requires 0.0 <= m < 100.0
    ensures Headroom(reserve, m, a) >= 0.0
  {
    var k := 1000.0 * reserve as real + 997.0 * a as real;
    NonNegProduct(m, k);
    var d := 1000.0 * (100.0 - m);
    assert m * k / d >= 0.0 by { NonNegQuotient(m * k, d); }
  }

  lemma NonNegQuotient(x: real, d: real)
    requires x >= 0.0 && d > 0.0
    ensures x / d >= 0.0
  {
  }

  /** maxReserveIn - reserve == m (1000 reserve + 997 a) / (1000 (100 - m)). */
  lemma HeadroomIsExcess(reserve: nat, m: real, a: nat)
    requires 0.0 <= m < 100.0
    ensures MaxReserveIn(reserve, m, a) - reserve as real == Headroom(reserve, m, a)
  {
    var r, aa := reserve as real, a as real;
    var d := 1000.0 * (100.0 - m);
    var n := 100000.0 * r + 997.0 * m * aa;
    assert r * d == 100000.0 * r - 1000.0 * m * r;
    assert n - r * d == m * (1000.0 * r + 997.0 * aa);
    assert n / d - r == (n - r * d) / d;
  }

  /**
   * `findOptimalAmount` is the floor of the exact headroom: never negative,
   * and never more than one unit below the exact bound.
   */
  lemma {:induction false} OptimalAmountClosedForm(reserve: nat, m: real, a: nat)
    requires 0.0 <= m < 100.0
    ensures FindOptimalAmount(reserve, m, a) == Headroom(reserve, m, a).Floor
    ensures FindOptimalAmount(reserve, m, a) >= 0
  {
    HeadroomIsExcess(reserve, m, a);
    HeadroomNonNegative(reserve, m, a);
  }

  /** With no price change allowed, nothing may be traded. */
  lemma OptimalAmountZeroWithoutImpact(reserve: nat, a: nat)
    ensures FindOptimalAmount(reserve, 0.0, a) == 0
  {
    OptimalAmountClosedForm(reserve, 0.0, a);
  }

  lemma FloorMonotone(x: real, y: real)
    requires x <= y
    ensures x.Floor <= y.Floor
  {
  }

  /** A deeper reserve never allows a smaller trade. */
  lemma {:induction false} OptimalAmountMonotoneInReserve(r1: nat, r2: nat, m: real, a: nat)
    requires 0.0 <= m < 100.0 && r1 <= r2
    ensures FindOptimalAmount(r1, m, a) <= FindOptimalAmount(r2, m, a)
  {
    OptimalAmountClosedForm(r1, m, a);
    OptimalAmountClosedForm(r2, m, a);
    ShareMonotoneInWeight(m, 1000.0 * r1 as real + 997.0 * a as real, 1000.0 * r2 as real + 997.0 * a as real);
    FloorMonotone(Headroom(r1, m, a), Headroom(r2, m, a));
  }

  /** A larger allowed price change never allows a smaller trade. */
  lemma {:induction false} OptimalAmountMonotoneInImpact(reserve: nat, m1: real, m2: real, a: nat)
    requires 0.0 <= m1 <= m2 < 100.0
    ensures FindOptimalAmount(reserve, m1, a) <= FindOptimalAmount(reserve, m2, a)
  {
    OptimalAmountClosedForm(reserve, m1, a);
    OptimalAmountClosedForm(reserve, m2, a);
    HeadroomMonotoneInImpact(reserve, m1, m2, a);
    FloorMonotone(Headroom(reserve, m1, a), Headroom(reserve, m2, a));
  }

  lemma HeadroomMonotoneInImpact(reserve: nat, m1: real, m2: real, a: nat)
    requires 0.0 <= m1 <= m2 < 100.0
    ensures Headroom(reserve, m1, a) <= Headroom(reserve, m2, a)
  {
    ShareMonotone(1000.0 * reserve as real + 997.0 * a as real, m1, m2);
  }

  /** m k / (1000 (100 - m)) grows with m for k >= 0. */
  lemma ShareMonotone(k: real, m1: real, m2: real)
    requires k >= 0.0 && 0.0 <= m1 <= m2 < 100.0
    ensures Share(m1, k) <= Share(m2, k)
  {
    var d1 := 1000.0 * (100.0 - m1);
    var d2 := 1000.0 * (100.0 - m2);
    CrossRatio(m1, m2);
    MulLeftReal(m1 * d2, m2 * d1, k);
    assert (m1 * k) * d2 == k * (m1 * d2);
    assert (m2 * k) * d1 == k * (m2 * d1);
    DivLeIff(m1 * k, d1, m2 * k, d2);
  }

  /** m k / (1000 (100 - m)) grows with k for m >= 0. */
  lemma ShareMonotoneInWeight(m: real, k1: real, k2: real)
    requires 0.0 <= m < 100.0 && k1 <= k2
    ensures Share(m, k1) <= Share(m, k2)
  {
    var d := 1000.0 * (100.0 - m);
    MulLeftReal(k1, k2, m);
    NonNegQuotient(m * k2 - m * k1, d);
    assert (m * k2 - m * k1) / d == m * k2 / d - m * k1 / d;
  }

  lemma CrossRatio(m1: real, m2: real)
    requires m1 <= m2
    ensures m1 * (1000.0 * (100.0 - m2)) <= m2 * (1000.0 * (100.0 - m1))
  {
    assert m1 * (1000.0 * (100.0 - m2)) == 100000.0 * m1 - 1000.0 * (m1 * m2);
    assert m2 * (1000.0 * (100.0 - m1)) == 100000.0 * m2 - 1000.0 * (m1 * m2);
  }

  /**
   * The amount the test file expects for USDT (3388339801) at a 1% bound and a
   * one-token price probe is what a USDT reserve of 335444643299 gives.
   */
  lemma OptimalAmountExpectedValue()
    ensures FindOptimalAmount(335444643299, 1.0, 1000000) == 3388339801
  {
    OptimalAmountClosedForm(335444643299, 1.0, 1000000);
    assert Headroom(335444643299, 1.0, 1000000) == 3388339801.0;
  }

  // ----- the price-impact reading of the bound -----

  /**
   * The router's quote for `a` units sold into `reserveIn` against
   * `reserveOut`, before flooring (Uniswap V2 `getAmountOut`, an assumption
   * about the external router).
   */
  function SpotQuote(a: nat, reserveIn: nat, reserveOut: nat): real
    requires a > 0
  {
    (997.0 * a as real * reserveOut as real) / (1000.0 * reserveIn as real + 997.0 * a as real)
  }

  /**
   * Adding `x` to the reserve keeps the quote within `m` percent of the quote
   * before exactly when the new reserve does not exceed `maxReserveIn`; this is
   * the algebra `findOptimalAmount` solves (the output reserve held fixed).
   */
  lemma {:induction false} ImpactBoundIff(reserve: nat, reserveOut: nat, m: real, a: nat, x: nat)
    requires a > 0 && reserveOut > 0 && 0.0 <= m < 100.0
    ensures SpotQuote(a, reserve + x, reserveOut) >= (1.0 - m / 100.0) * SpotQuote(a, reserve, reserveOut)
            <==> (reserve + x) as real <= MaxReserveIn(reserve, m, a)
  {
    var r, aa, y := reserve as real, a as real, (reserve + x) as real;
    var c := 997.0 * aa * reserveOut as real;
    PositiveProduct(997.0 * aa, reserveOut as real);
    assert SpotQuote(a, reserve, reserveOut) == c / (1000.0 * r + 997.0 * aa);
    assert SpotQuote(a, reserve + x, reserveOut) == c / (1000.0 * y + 997.0 * aa);
    RatioImpactIff(r, y, aa, c, m);
  }

  /** The bound over reals: quote c / (1000 y + 997 a) against c / (1000 r + 997 a). */
  lemma RatioImpactIff(r: real, y: real, aa: real, c: real, m: real)
    requires r >= 0.0 && y >= 0.0 && aa > 0.0 && c > 0.0 && 0.0 <= m < 100.0
    ensures c / (1000.0 * y + 997.0 * aa) >= (1.0 - m / 100.0) * (c / (1000.0 * r + 997.0 * aa))
            <==> y <= (100000.0 * r + 997.0 * m * aa) / (1000.0 * (100.0 - m))
  {
    QuoteRatioIff(c, 1000.0 * r + 997.0 * aa, 1000.0 * y + 997.0 * aa, 1.0 - m / 100.0);
    ScaledReserveIff(r, y, aa, m);
    LeDivIff(y, 100000.0 * r + 997.0 * m * aa, 1000.0 * (100.0 - m));
  }

  /** c / d1 >= k (c / d0) exactly when k d1 <= d0. */
  lemma QuoteRatioIff(c: real, d0: real, d1: real, k: real)
    requires c > 0.0 && d0 > 0.0 && d1 > 0.0
    ensures c / d1 >= k * (c / d0) <==> k * d1 <= d0
  {
    assert k * (c / d0) == (k * c) / d0;
    DivLeIff(k * c, d0, c, d1);
    assert (k * c) * d1 == c * (k * d1);
    CancelPositive(k * d1, d0, c);
  }

  /** The same condition, solved for the new reserve y. */
  lemma ScaledReserveIff(r: real, y: real, aa: real, m: real)
    requires m < 100.0
    ensures (1.0 - m / 100.0) * (1000.0 * y + 997.0 * aa) <= 1000.0 * r + 997.0 * aa
            <==> y * (1000.0 * (100.0 - m)) <= 100000.0 * r + 997.0 * m * aa
  {
    var d1 := 1000.0 * y + 997.0 * aa;
    var d0 := 1000.0 * r + 997.0 * aa;
    var k := 1.0 - m / 100.0;
    assert 100.0 * (k * d1) == (100.0 - m) * d1;
    assert (100.0 - m) * d1 == y * (1000.0 * (100.0 - m)) + 997.0 * aa * (100.0 - m);
    assert 100.0 * d0 == 100000.0 * r + 997.0 * m * aa + 997.0 * aa * (100.0 - m);
    CancelPositive(k * d1, d0, 100.0);
  }

  lemma PositiveProduct(x: real, y: real)
    requires x > 0.0 && y > 0.0
    ensures x * y > 0.0
  {
  }

  lemma CancelPositive(u: real, v: real, c: real)
    requires c > 0.0
    ensures c * u <= c * v <==> u <= v
  {
    assert c * v - c * u == c * (v - u);
    if u <= v {
      NonNegProduct(c, v - u);
    } else {
      PositiveProduct(c, u - v);
    }
  }

  lemma LeDivIff(y: real, n: real, d: real)
    requires d > 0.0
    ensures y <= n / d <==> y * d <= n
  {
    assert (n / d) * d == n;
    CancelPositive(y, n / d, d);
    assert d * y == y * d && d * (n / d) == n;
  }

  /**
   * Adding `findOptimalAmount` to the sold token's reserve, with the output
   * reserve held fixed (a one-sided deposit), keeps its quote within `m` percent.
   */
  lemma {:induction false} OptimalAmountWithinImpact(reserve: nat, reserveOut: nat, m: real, a: nat)
    requires a > 0 && reserveOut > 0 && 0.0 <= m < 100.0
    ensures var x := FindOptimalAmount(reserve, m, a);
      x >= 0 &&
      SpotQuote(a, reserve + x, reserveOut) >= (1.0 - m / 100.0) * SpotQuote(a, reserve, reserveOut)
  {
    OptimalAmountClosedForm(reserve, m, a);
    HeadroomIsExcess(reserve, m, a);
    var x := FindOptimalAmount(reserve, m, a);
    assert x as real <= Headroom(reserve, m, a);
    ImpactBoundIff(reserve, reserveOut, m, a, x);
  }

  /**
   * With the output reserve held fixed, one unit more than `findOptimalAmount`
   * moves the quote by more than `m` percent.
   */
  lemma {:induction false} OptimalAmountIsLargest(reserve: nat, reserveOut: nat, m: real, a: nat)
    requires a > 0 && reserveOut > 0 && 0.0 <= m < 100.0
    ensures var x := FindOptimalAmount(reserve, m, a);
      x >= 0 &&
      SpotQuote(a, reserve + x + 1, reserveOut) < (1.0 - m / 100.0) * SpotQuote(a, reserve, reserveOut)
  {
    OptimalAmountClosedForm(reserve, m, a);
    HeadroomIsExcess(reserve, m, a);
    var x := FindOptimalAmount(reserve, m, a);
    assert (x + 1) as real > Headroom(reserve, m, a);
    ImpactBoundIff(reserve, reserveOut, m, a, x + 1);
  }
}

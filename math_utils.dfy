/**
 * The helpers of `app/utils/math.js`: a closed-form impact bound on the trade
 * size, and the decimal length of the larger of two numbers. JS numbers are
 * modelled as exact rationals (the constants are exact decimals).
 */
module MathUtils {
  import opened Arith

  /** Uniswap fee, 0.3%. */
  const FEE: real := 0.003
  /** Largest accepted price impact, 0.05%. */
  const MAX_PRICE_IMPACT: real := 0.0005

  /** The exact value `reserve * MAX_PRICE_IMPACT / ((1 - MAX_PRICE_IMPACT) * (1 - FEE))`. */
  function ExactSwapAmount(reserve: real): real
  {
    reserve * MAX_PRICE_IMPACT / ((1.0 - MAX_PRICE_IMPACT) * (1.0 - FEE))
  }

  /** `calcOptimalSwapAmount`: the floor of the exact amount. */
  function CalcOptimalSwapAmount(reserve: real): int
  {
    ExactSwapAmount(reserve).Floor
  }

  /** The factor is 5000 / 9965015, a little over 1/2000. */
  lemma SwapFactor(reserve: real)
    ensures ExactSwapAmount(reserve) == reserve * (5000.0 / 9965015.0)
  {
    assert (1.0 - MAX_PRICE_IMPACT) * (1.0 - FEE) == 9965015.0 / 10000000.0;
    assert MAX_PRICE_IMPACT / (9965015.0 / 10000000.0) == 5000.0 / 9965015.0;
  }

  /** Floor bound: the result is the largest integer not above the exact amount. */
  lemma CalcOptimalSwapAmountFloor(reserve: real)
    ensures CalcOptimalSwapAmount(reserve) as real <= ExactSwapAmount(reserve)
            < CalcOptimalSwapAmount(reserve) as real + 1.0
  {
  }

  /** For a non-negative reserve the amount lies between 0 and the reserve itself. */
  lemma {:induction false} CalcOptimalSwapAmountBounds(reserve: real)
    requires reserve >= 0.0
    ensures 0 <= CalcOptimalSwapAmount(reserve)
    ensures CalcOptimalSwapAmount(reserve) as real <= reserve
  {
    SwapFactor(reserve);
    var f := 5000.0 / 9965015.0;
    NonNegProduct(reserve, f);
    MulLeftReal(f, 1.0, reserve);
    assert reserve * 1.0 == reserve;
  }

  lemma CalcOptimalSwapAmountZero()
    ensures CalcOptimalSwapAmount(0.0) == 0
  {
  }

  /** A larger reserve never gives a smaller amount. */
  lemma {:induction false} CalcOptimalSwapAmountMonotone(r1: real, r2: real)
    requires r1 <= r2
    ensures CalcOptimalSwapAmount(r1) <= CalcOptimalSwapAmount(r2)
  {
    SwapFactor(r1);
    SwapFactor(r2);
    var f := 5000.0 / 9965015.0;
    assert r2 * f - r1 * f == (r2 - r1) * f;
    NonNegProduct(r2 - r1, f);
  }

  // ----- getDecimalCount -----

  /** Length of the decimal representation of a natural number. */
  function NumDigits(n: nat): nat
  {
    if n < 10 then 1 else 1 + NumDigits(n / 10)
  }

  function Pow10(k: nat): nat
  {
    if k == 0 then 1 else 10 * Pow10(k - 1)
  }

  /** `getDecimalCount`: the decimal length of the larger of two numbers. */
  function GetDecimalCount(x: nat, y: nat): nat
  {
    NumDigits(if x >= y then x else y)
  }

  /** NumDigits(n) is the d with 10^(d-1) <= n < 10^d (and 1 for n = 0). */
  lemma {:induction false} NumDigitsBounds(n: nat)
    ensures NumDigits(n) >= 1
    ensures n < Pow10(NumDigits(n))
    ensures n >= 1 ==> Pow10(NumDigits(n) - 1) <= n
  {
    if n >= 10 {
      NumDigitsBounds(n / 10);
      var d := NumDigits(n / 10);
      assert NumDigits(n) == d + 1;
      assert Pow10(d + 1) == 10 * Pow10(d);
      assert n / 10 + 1 <= Pow10(d);
      assert n < 10 * (n / 10 + 1);
      assert Pow10(d) == 10 * Pow10(d - 1) || d == 0;
    }
  }

  /** A larger number never has fewer digits. */
  lemma {:induction false} NumDigitsMonotone(x: nat, y: nat)
    requires x <= y
    ensures NumDigits(x) <= NumDigits(y)
  {
    if x >= 10 {
      NumDigitsMonotone(x / 10, y / 10);
    }
  }

  /** The count is the larger of the two digit counts, so it is symmetric and at least 1. */
  lemma {:induction false} DecimalCountIsLongerLength(x: nat, y: nat)
    ensures GetDecimalCount(x, y) == if NumDigits(x) >= NumDigits(y) then NumDigits(x) else NumDigits(y)
    ensures GetDecimalCount(x, y) == GetDecimalCount(y, x)
    ensures GetDecimalCount(x, y) >= 1
  {
    if x <= y {
      NumDigitsMonotone(x, y);
    } else {
      NumDigitsMonotone(y, x);
    }
    NumDigitsBounds(if x >= y then x else y);
  }
}

/**
 * Small facts about multiplication and division that the solver does not find
 * on its own; each step is kept to one product so that it stays cheap.
 */
module Arith {

  lemma MulLeft(x: nat, y: nat, z: nat)
    requires x <= y
    ensures z * x <= z * y
  {
  }

  lemma MulAssoc(x: nat, y: nat, z: nat)
    ensures (x * y) * z == x * (y * z)
  {
  }

  /** n < k * d gives n / d < k. */
  lemma DivBelow(n: nat, d: nat, k: nat)
    requires d > 0 && n < k * d
    ensures n / d < k
  {
    var q := n / d;
    assert q * d <= n;
    assert (k - q) * d == k * d - q * d;
    assert (k - q) * d > 0;
  }

  /** q * d <= n gives q <= n / d. */
  lemma QuotientAtLeast(n: nat, d: nat, q: nat)
    requires d > 0 && q * d <= n
    ensures q <= n / d
  {
    var r := n / d;
    assert n == r * d + n % d;
    assert (r + 1) * d == r * d + d;
    assert ((r + 1) - q) * d == (r + 1) * d - q * d;
    PositiveLeftFactor((r + 1) - q, d);
  }

  lemma PositiveLeftFactor(x: int, d: nat)
    requires d > 0 && x * d > 0
    ensures x > 0
  {
  }

  /** Floor division is monotone in the fraction: n1/d1 <= n2/d2 as rationals. */
  lemma DivMonotone(n1: nat, d1: nat, n2: nat, d2: nat)
    requires d1 > 0 && d2 > 0
    requires n1 * d2 <= n2 * d1
    ensures n1 / d1 <= n2 / d2
  {
    var q := n1 / d1;
    assert q * d1 <= n1;
    MulLeft(q * d1, n1, d2);
    assert d1 * (q * d2) == d2 * (q * d1);
    assert d1 * (q * d2) <= d1 * n2;
    assert (n2 - q * d2) * d1 == d1 * n2 - d1 * (q * d2);
    assert q * d2 <= n2;
    QuotientAtLeast(n2, d2, q);
  }

  lemma ScaleUp(x: real, t: real)
    requires t > 1.0 && x > 0.0
    ensures x * t > x
  {
  }

  lemma PositiveFactor(x: real, t: real)
    requires t > 0.0 && x * t > 0.0
    ensures x > 0.0
  {
  }

  lemma NonNegProduct(x: real, y: real)
    requires x >= 0.0 && y >= 0.0
    ensures x * y >= 0.0
  {
  }

  lemma MulLeftReal(x: real, y: real, z: real)
    requires x <= y && z >= 0.0
    ensures z * x <= z * y
  {
    assert z * y - z * x == z * (y - x);
    NonNegProduct(z, y - x);
  }

  /** For positive denominators, x / d <= y / e exactly when x * e <= y * d. */
  lemma DivLeIff(x: real, d: real, y: real, e: real)
    requires d > 0.0 && e > 0.0
    ensures x / d <= y / e <==> x * e <= y * d
  {
    var a, b := x / d, y / e;
    assert a * d == x;
    assert b * e == y;
    assert x * e == a * (d * e);
    assert y * d == b * (d * e);
    var de := d * e;
    assert de > 0.0;
    if a <= b {
      MulLeftReal(a, b, de);
    } else {
      MulLeftReal(b, a, de);
      assert (a - b) * de > 0.0;
    }
  }
}

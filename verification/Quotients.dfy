/** Bounds on products and quotients of variables, and quotients as C computes them. */
module Quotients {

  function Pow2(n: nat): nat { if n == 0 then 1 else 2 * Pow2(n - 1) }

  function Abs(x: int): nat { if x < 0 then 0 - x else x }

  /** C's quotient, which truncates towards zero, and its remainder, which has the sign of the dividend. */
  function TruncDiv(a: int, b: int): int
    requires b != 0
  {
    if a < 0 then 0 - ((0 - a) / b) else a / b
  }

  function TruncRem(a: int, b: int): int
    requires b != 0
  {
    if a < 0 then 0 - ((0 - a) % b) else a % b
  }

  lemma TruncFacts(a: int, b: int)
    requires b != 0
    ensures a == TruncDiv(a, b) * b + TruncRem(a, b)
    ensures 0 - Abs(b) < TruncRem(a, b) < Abs(b)
  {
    if a < 0 {
      var q, r := (0 - a) / b, (0 - a) % b;
      assert 0 - a == q * b + r;
      assert (0 - q) * b == 0 - q * b;
    } else {
      assert a == (a / b) * b + a % b;
    }
  }

  lemma TruncSign(a: int, b: int)
    requires b != 0
    ensures a >= 0 ==> TruncRem(a, b) >= 0
    ensures a <= 0 ==> TruncRem(a, b) <= 0
  {
  }

  lemma ProductSign(a: int, b: int)
    ensures a >= 0 && b >= 0 ==> a * b >= 0
    ensures a <= 0 && b >= 0 ==> a * b <= 0
  {
  }

  lemma QuotientBounds(q: int, n: nat, r: nat, x: nat)
    requires x == q * n + r && r < n
    ensures 0 <= q <= x
  {
    if q < 0 {
      assert (q + 1) * n == q * n + n;
      ProductSign(q + 1, n);
    } else {
      ProductSign(q, n - 1);
      assert q * (n - 1) == q * n - q;
    }
  }

  lemma DividedSmaller(x: nat, n: nat)
    requires n > 0
    ensures 0 <= x / n <= x
  {
    QuotientBounds(x / n, n, x % n, x);
  }

  lemma ProductMonotone(x: nat, y: nat, k: nat)
    requires x <= y
    ensures 0 <= x * k <= y * k
    ensures x < y ==> x * k + k <= y * k
  {
    ProductSign(x, k);
    ProductSign(y - x, k);
    assert (y - x) * k == y * k - x * k;
    if x < y {
      ProductSign(y - x - 1, k);
      assert (y - x - 1) * k == y * k - x * k - k;
    }
  }
}

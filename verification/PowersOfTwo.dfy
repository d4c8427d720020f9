/** Powers of two and the handful of multiplication facts the arithmetic modules share. */
module PowersOfTwo {

  function Pow2(n: nat): (r: nat)
    ensures r >= 1
  {
    if n == 0 then 1 else 2 * Pow2(n - 1)
  }

  lemma {:induction false} Pow2Sum(a: nat, b: nat)
    ensures Pow2(a + b) == Pow2(a) * Pow2(b)
  {
    if a > 0 {
      Pow2Sum(a - 1, b);
      assert Pow2(a) * Pow2(b) == 2 * (Pow2(a - 1) * Pow2(b));
    }
  }

  lemma {:induction false} Pow2Increasing(a: nat, b: nat)
    requires a < b
    ensures 2 * Pow2(a) <= Pow2(b)
  {
    if a < b - 1 { Pow2Increasing(a, b - 1); }
  }

  lemma Pow2Monotone(a: nat, b: nat)
    requires a <= b
    ensures Pow2(a) <= Pow2(b)
  {
    if a < b { Pow2Increasing(a, b); }
  }

  lemma MulMonotone(x: int, y: int, k: int)
    requires x <= y && 0 <= k
    ensures x * k <= y * k
  {}

  lemma MulStrict(x: int, y: int, k: int)
    requires x < y && 0 < k
    ensures x * k < y * k
  {}

  lemma MulCancel(x: int, y: int, k: int)
    requires 0 < k
    ensures x * k < y * k <==> x < y
    ensures x * k == y * k <==> x == y
  {
    if x < y { MulStrict(x, y, k); }
    if y < x { MulStrict(y, x, k); }
  }

  lemma Associate(a: int, b: int, c: int)
    ensures a * b * c == a * (b * c)
  {}

  lemma NextPower(m: int, n: nat)
    ensures m * Pow2(n + 1) == 2 * m * Pow2(n)
  {
    Associate(m, 2, Pow2(n));
  }

  lemma TwoFactors(m: int, a: nat, b: nat, sum: nat)
    requires sum == a + b
    ensures m * Pow2(a) * Pow2(b) == m * Pow2(sum)
  {
    Pow2Sum(a, b);
    Associate(m, Pow2(a), Pow2(b));
  }

  // Division is determined by quotient and remainder.
  lemma QuotientUnique(x: int, d: int, q: int, r: int)
    requires 0 <= r < d && x == q * d + r
    ensures x / d == q && x % d == r
  {
    assert (x / d - q) * d == r - x % d;
    if x / d - q >= 1 { MulMonotone(1, x / d - q, d); }
    if x / d - q <= -1 { MulMonotone(x / d - q, -1, d); }
  }

  function Abs(x: int): nat {
    if x < 0 then -x else x
  }

  lemma AbsScale(x: int, k: int)
    requires 0 <= k
    ensures Abs(x * k) == Abs(x) * k
  {}
}

/**
 Rounding to the nearest representable number (section 4.3.1 of IEEE 754-2008), stated against every normal
 word, and the one criterion on mantissas from which it follows.
 */
module FloatRounding {
  import opened PowersOfTwo
  import opened FloatFormat

  // r is the unique normal word nearest to x / y.
  ghost predicate IsNearest(f: Format, x: int, y: nat, r: int)
    requires f.p >= 1
  {
    && Normal(f, r)
    && forall c :: Normal(f, c) && c != r ==> Abs(x - Value(f, r) * y) < Abs(x - Value(f, c) * y)
  }

  // r is x / y rounded to nearest, ties to even.
  ghost predicate IsNearestEven(f: Format, x: int, y: nat, r: int)
    requires f.p >= 1
  {
    && Normal(f, r)
    && forall c :: Normal(f, c) && c != r ==>
         || Abs(x - Value(f, r) * y) < Abs(x - Value(f, c) * y)
         || (Abs(x - Value(f, r) * y) == Abs(x - Value(f, c) * y) && Mant(f, r) % 2 == 0)
  }

  // x / y lies within the normal range, so rounding it neither underflows nor overflows.
  ghost predicate InRange(f: Format, x: int, y: nat)
    requires f.p >= 1
  {
    f.Hidden() * Pow2(1) * y <= Abs(x) <= (Pow2(f.p) - 1) * Pow2(f.MaxExp()) * y
  }

  // Of all multiples of u, the one within u/2 of x is the nearest.
  lemma NearestMultiple(x: int, u: nat, m: int, k: int)
    requires 2 * Abs(x - m * u) <= u && k != m && u > 0
    ensures Abs(x - m * u) <= Abs(x - k * u)
    ensures 2 * Abs(x - m * u) < u ==> Abs(x - m * u) < Abs(x - k * u)
  {
    if k > m {
      MulMonotone(m + 1, k, u);
      assert (m + 1) * u == m * u + u;
    } else {
      MulMonotone(k, m - 1, u);
      assert (m - 1) * u == m * u - u;
    }
  }

  lemma ScaleDistance(n: int, m: int, d: int, b: nat)
    ensures Abs(n * b - m * b * d) == Abs(n - m * d) * b
  {
    assert m * b * d == (m * d) * b by { Associate(m, b, d); Associate(m, d, b); }
    assert (n - m * d) * b == n * b - (m * d) * b;
    AbsScale(n - m * d, b);
  }

  // The distance between n / d and m, doubled and in units of 2^e.
  lemma ScaleHalf(n: int, m: int, d: nat, b: nat)
    requires b > 0 && 2 * Abs(n - m * d) <= d
    ensures 2 * Abs(n * b - m * b * d) <= b * d
    ensures 2 * Abs(n - m * d) < d ==> 2 * Abs(n * b - m * b * d) < b * d
  {
    var x := Abs(n - m * d);
    ScaleDistance(n, m, d, b);
    assert 2 * (x * b) == (2 * x) * b;
    MulMonotone(2 * x, d, b);
    if 2 * x < d { MulStrict(2 * x, d, b); }
  }

  // A mantissa m within half a unit of n / d, at exponent e, beats every other normalised pair (m2, e2).
  lemma NearestMantissa(p: nat, n: nat, d: nat, e: nat, m: nat, e2: nat, m2: nat)
    requires p >= 1 && d > 0
    requires 2 * Abs(n - m * d) <= d
    requires Pow2(p - 1) * d <= n && Pow2(p - 1) <= m <= Pow2(p)
    requires Pow2(p - 1) <= m2 < Pow2(p)
    requires m2 * Pow2(e2) != m * Pow2(e)
    ensures var x, r, c := n * Pow2(e), m * Pow2(e) * d, m2 * Pow2(e2) * d;
      && Abs(x - r) <= Abs(x - c)
      && (2 * Abs(n - m * d) < d ==> Abs(x - r) < Abs(x - c))
  {
    if e2 >= e {
      SameGrid(n, d, e, m, e2, m2);
    } else {
      SmallerExponent(p, n, d, e, m, e2, m2);
    }
  }

  // At the same or a larger exponent, the other number is a multiple of the same unit.
  lemma SameGrid(n: nat, d: nat, e: nat, m: nat, e2: nat, m2: nat)
    requires d > 0 && e2 >= e && 2 * Abs(n - m * d) <= d
    requires m2 * Pow2(e2) != m * Pow2(e)
    ensures var x, r, c := n * Pow2(e), m * Pow2(e) * d, m2 * Pow2(e2) * d;
      && Abs(x - r) <= Abs(x - c)
      && (2 * Abs(n - m * d) < d ==> Abs(x - r) < Abs(x - c))
  {
    var b, k := Pow2(e), m2 * Pow2(e2 - e);
    Pow2Sum(e2 - e, e);
    Associate(m2, Pow2(e2 - e), b);
    Associate(k, b, d);
    Associate(m, b, d);
    ScaleHalf(n, m, d, b);
    MulStrict(0, b, d);
    NearestMultiple(n * b, b * d, m, k);
  }

  lemma LargerExponentIsLarger(h: nat, m1: nat, e1: nat, m2: nat, e2: nat)
    requires e1 < e2 && m1 < 2 * h && h <= m2
    ensures m1 * Pow2(e1) < m2 * Pow2(e2)
  {
    Pow2Increasing(e1, e2);
    MulStrict(m1, 2 * h, Pow2(e1));
    MulMonotone(2 * Pow2(e1), Pow2(e2), h);
    MulMonotone(h, m2, Pow2(e2));
    assert (2 * h) * Pow2(e1) == (2 * Pow2(e1)) * h;
    assert Pow2(e2) * h == h * Pow2(e2);
  }

  // Numbers with a smaller exponent lie below both n and m, and n >= m when m is a power of two.
  lemma SmallerExponent(p: nat, n: nat, d: nat, e: nat, m: nat, e2: nat, m2: nat)
    requires p >= 1 && d > 0 && e2 < e
    requires 2 * Abs(n - m * d) <= d
    requires Pow2(p - 1) * d <= n && Pow2(p - 1) <= m && m2 < Pow2(p)
    ensures Abs(n * Pow2(e) - m * Pow2(e) * d) < Abs(n * Pow2(e) - m2 * Pow2(e2) * d)
  {
    LargerExponentIsLarger(Pow2(p - 1), m2, e2, Pow2(p - 1), e);
    BelowBoth(n, d, Pow2(e), Pow2(p - 1), m, m2 * Pow2(e2));
  }

  lemma BelowBoth(n: nat, d: nat, b: nat, h: nat, m: nat, c: nat)
    requires b > 0 && d > 0 && 2 * Abs(n - m * d) <= d
    requires h * d <= n && h <= m && c < h * b
    ensures Abs(n * b - m * b * d) < Abs(n * b - c * d)
  {
    ScaleHalf(n, m, d, b);
    MulStrict(c, h * b, d);
    ScaleBound(h, d, n, b);
    if m > h { NextMultiple(h, m, b, d); }
  }

  lemma ScaleBound(h: nat, d: nat, n: nat, b: nat)
    requires h * d <= n
    ensures h * b * d <= n * b
  {
    MulMonotone(h * d, n, b);
    Associate(h, d, b);
    Associate(h, b, d);
  }

  lemma NextMultiple(h: nat, m: nat, b: nat, d: nat)
    requires h < m && b > 0 && d > 0
    ensures m * b * d >= h * b * d + b * d
  {
    Associate(m, b, d);
    Associate(h, b, d);
    MulMonotone(h + 1, m, b * d);
    assert (h + 1) * (b * d) == h * (b * d) + b * d;
  }

  // The word for mantissa m at exponent e, where rounding may have carried m to the next power of two.
  function PackRounded(f: Format, sign: bool, e: int, m: nat): nat
    requires f.p >= 1 && f.Hidden() <= m <= Pow2(f.p)
  {
    if m == Pow2(f.p) then Pack(f, sign, e + 1, 0) else Pack(f, sign, e, m - f.Hidden())
  }

  lemma PackRoundedFields(f: Format, sign: bool, e: int, m: nat)
    requires f.p >= 2 && f.Hidden() <= m <= Pow2(f.p) && e >= 0
    requires 1 <= (if m == Pow2(f.p) then e + 1 else e) <= f.MaxExp()
    ensures var r := PackRounded(f, sign, e, m);
      && Normal(f, r) && Sign(f, r) == sign && Magnitude(f, r) == m * Pow2(e)
      && Exp(f, r) == (if m == Pow2(f.p) then e + 1 else e) && Mant(f, r) % 2 == m % 2
  {
    hide Pow2, Pack, Exp, Sign, Mant, Normal;
    HiddenIsEven(f);
    if m == Pow2(f.p) {
      PackFields(f, sign, e + 1, f.Hidden());
      NextPower(f.Hidden(), e);
    } else {
      PackFields(f, sign, e, m);
    }
  }

  lemma DistinctMagnitudes(f: Format, r: nat, c: nat)
    requires f.p >= 1 && Normal(f, r) && Normal(f, c) && r != c && Sign(f, r) == Sign(f, c)
    ensures Magnitude(f, r) != Magnitude(f, c)
  {
    var e1, m1, e2, m2 := Exp(f, r), Mant(f, r), Exp(f, c), Mant(f, c);
    MantBounds(f, r);
    MantBounds(f, c);
    if e1 < e2 {
      LargerExponentIsLarger(f.Hidden(), m1, e1, m2, e2);
    } else if e2 < e1 {
      LargerExponentIsLarger(f.Hidden(), m2, e2, m1, e1);
    } else {
      if m1 == m2 { SameFieldsSameWord(f, r, c); }
      MulCancel(m1, m2, Pow2(e1));
    }
  }

  // The word r is at least as near to x / d as c; strictly nearer when asked.
  ghost predicate Beats(f: Format, x: int, d: nat, r: nat, c: nat, strictly: bool)
    requires f.p >= 1
  {
    && Abs(x - Value(f, r) * d) <= Abs(x - Value(f, c) * d)
    && (strictly ==> Abs(x - Value(f, r) * d) < Abs(x - Value(f, c) * d))
  }

  // The criterion: a mantissa within half a unit of n / d yields the nearest word to +-(n * 2^e) / d.
  lemma RoundedIsNearest(f: Format, sign: bool, n: nat, d: nat, e: nat, m: nat, x: int)
    requires f.p >= 2 && d > 0 && f.Hidden() * d <= n
    requires f.Hidden() <= m <= Pow2(f.p) && 2 * Abs(n - m * d) <= d
    requires 1 <= e && (if m == Pow2(f.p) then e + 1 else e) <= f.MaxExp()
    requires 2 * Abs(n - m * d) == d ==> m % 2 == 0
    requires x == if sign then -(n * Pow2(e)) else n * Pow2(e)
    ensures IsNearestEven(f, x, d, PackRounded(f, sign, e, m))
    ensures 2 * Abs(n - m * d) < d ==> IsNearest(f, x, d, PackRounded(f, sign, e, m))
  {
    var r, strictly := PackRounded(f, sign, e, m), 2 * Abs(n - m * d) < d;
    PackRoundedFields(f, sign, e, m);
    forall c | Normal(f, c) && c != r
      ensures Beats(f, x, d, r, c, strictly)
    {
      CandidateLoses(f, sign, n, d, e, m, r, c, x);
    }
  }

  lemma CandidateLoses(f: Format, sign: bool, n: nat, d: nat, e: nat, m: nat, r: nat, c: nat, x: int)
    requires f.p >= 2 && d > 0 && f.Hidden() * d <= n
    requires f.Hidden() <= m <= Pow2(f.p) && 2 * Abs(n - m * d) <= d
    requires Normal(f, r) && Sign(f, r) == sign && Magnitude(f, r) == m * Pow2(e)
    requires Normal(f, c) && c != r
    requires x == if sign then -(n * Pow2(e)) else n * Pow2(e)
    ensures Beats(f, x, d, r, c, 2 * Abs(n - m * d) < d)
  {
    NegatedProduct(Magnitude(f, r), d);
    NegatedProduct(Magnitude(f, c), d);
    if Sign(f, c) == sign {
      DistinctMagnitudes(f, r, c);
      MantBounds(f, c);
      NearestMantissa(f.p, n, d, e, m, Exp(f, c), Mant(f, c));
    } else {
      OppositeSign(f, n, d, e, m, r);
      MagnitudePositive(f, c, d);
    }
  }

  lemma MagnitudePositive(f: Format, c: nat, d: nat)
    requires f.p >= 1 && d > 0
    ensures Magnitude(f, c) * d > 0
  {
    MulStrict(0, Mant(f, c), Pow2(Exp(f, c)));
    MulStrict(0, Magnitude(f, c), d);
  }

  lemma NegatedProduct(a: int, d: int)
    ensures (-a) * d == -(a * d)
  {}

  lemma OppositeSign(f: Format, n: nat, d: nat, e: nat, m: nat, r: nat)
    requires f.p >= 1 && d > 0 && f.Hidden() * d <= n && 2 * Abs(n - m * d) <= d
    requires Magnitude(f, r) == m * Pow2(e)
    ensures Abs(n * Pow2(e) - Magnitude(f, r) * d) <= n * Pow2(e)
  {
    ScaleDistance(n, m, d, Pow2(e));
    MulMonotone(1, f.Hidden(), d);
    MulMonotone(Abs(n - m * d), n, Pow2(e));
  }
}

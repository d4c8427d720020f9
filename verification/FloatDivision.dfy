/** __divsf3 and __divdf3: shift-subtract division of mantissas, correctly rounded. */
module FloatDivision {
  import opened PowersOfTwo
  import opened FloatFormat
  import opened FloatRounding

  // The exact quotient of two words is QuotientNumerator / Magnitude(b), in units of Magnitude.
  function QuotientNumerator(f: Format, a: nat, b: nat): int
    requires f.p >= 1
  {
    var x: int := Magnitude(f, a) * f.One();
    if Sign(f, a) != Sign(f, b) then -x else x
  }

  // The state of the division loop with `left` rounds to go: the bits found so far are `quot`.
  ghost predicate Dividing(p: nat, start: nat, den: nat, num: nat, mask: nat, result: nat, quot: nat, left: nat) {
    && left <= p + 1
    && mask == (if left == 0 then 0 else Pow2(left - 1))
    && result == quot * Pow2(left)
    && num < 2 * den
    && start * Pow2(p + 1 - left) == 2 * quot * den + num
  }

  lemma DividingStep(p: nat, start: nat, den: nat, num: nat, mask: nat, result: nat, quot: nat, left: nat, bit: nat)
    requires Dividing(p, start, den, num, mask, result, quot, left) && left > 0
    requires bit == if num >= den then 1 else 0
    ensures Dividing(p, start, den, 2 * (num - bit * den), mask / 2, result + bit * mask, 2 * quot + bit, left - 1)
  {
    QuotientStep(start, Pow2(p + 1 - left), quot, den, num, bit, num - bit * den);
    NextBit(quot, left, bit);
  }

  lemma QuotientStep(start: nat, scale: nat, quot: nat, den: nat, num: nat, bit: nat, rest: int)
    requires start * scale == 2 * quot * den + num
    requires num == bit * den + rest
    ensures start * (2 * scale) == 2 * (2 * quot + bit) * den + 2 * rest
  {
    assert start * (2 * scale) == 2 * (start * scale);
    assert 2 * (2 * quot + bit) * den == 2 * (2 * quot * den) + 2 * (bit * den);
  }

  lemma NextBit(quot: nat, left: nat, bit: nat)
    requires left > 0
    ensures (2 * quot + bit) * Pow2(left - 1) == quot * Pow2(left) + bit * Pow2(left - 1)
  {
    Associate(quot, 2, Pow2(left - 1));
  }

  // The loop of lines 1209-1219 and 1825-1835: p + 1 rounds of compare, subtract and shift. Setting a bit
  // is adding it, because the result is a multiple of twice the mask.
  method QuotientBits(p: nat, start: nat, den: nat) returns (result: nat)
    requires 0 < den && start < 2 * den
    ensures result == start * Pow2(p) / den
  {
    var num: nat, mask := start, Pow2(p);
    result := 0;
    ghost var quot: nat, left: nat := 0, p + 1;
    while mask > 0
      invariant Dividing(p, start, den, num, mask, result, quot, left)
      decreases left
    {
      ghost var bit := if num >= den then 1 else 0;
      DividingStep(p, start, den, num, mask, result, quot, left, bit);
      if num >= den {
        result := result + mask;
        num := num - den;
      }
      num := 2 * num;
      mask := mask / 2;
      quot, left := 2 * quot + bit, left - 1;
    }
    LastRemainder(start, Pow2(p), quot, den, num);
  }

  lemma LastRemainder(start: nat, scale: nat, quot: nat, den: nat, num: nat)
    requires start * (2 * scale) == 2 * quot * den + num && num < 2 * den
    ensures start * scale / den == quot
  {
    assert start * (2 * scale) == 2 * (start * scale);
    assert 2 * quot * den == 2 * (quot * den);
    QuotientUnique(start * scale, den, quot, num / 2);
  }

  // 2^p does not divide an odd multiple of a smaller number: a quotient is never half-way.
  lemma {:induction false} NeverHalfway(p: nat, n: nat, d: nat, k: int)
    requires 0 < d < Pow2(p)
    ensures n * Pow2(p) != (2 * k + 1) * d
  {
    if n * Pow2(p) == (2 * k + 1) * d {
      var h := Pow2(p - 1);
      assert n * Pow2(p) == 2 * (n * h);
      assert (2 * k + 1) * d == 2 * (k * d) + d;
      var e := d / 2;
      assert (2 * k + 1) * (2 * e) == 2 * ((2 * k + 1) * e);
      NeverHalfway(p - 1, n, e, k);
    }
  }

  // The floor quotient, plus one, halved: within half a unit of the exact mantissa, and still p bits.
  lemma RoundedQuotient(p: nat, n: nat, d: nat)
    requires p >= 1 && Pow2(p - 1) <= d < Pow2(p) && d <= n < 2 * d
    ensures var m := (n * Pow2(p) / d + 1) / 2;
      && Pow2(p - 1) <= m < Pow2(p)
      && 2 * Abs(n * Pow2(p - 1) - m * d) < d
  {
    var q := n * Pow2(p) / d;
    FloorBounds(n * Pow2(p), d);
    Associate(n, Pow2(p - 1), 2);
    QuotientRange(n, d, Pow2(p), q);
    NeverHalfway(p, n, d, (q - 1) / 2);
    RoundHalf(n * Pow2(p - 1), d, q);
  }

  lemma FloorBounds(x: nat, d: nat)
    requires d > 0
    ensures x / d * d <= x < x / d * d + d
  {}

  lemma RoundHalf(y: nat, d: nat, q: nat)
    requires q * d <= 2 * y < q * d + d
    requires q % 2 == 1 ==> 2 * y != (2 * ((q - 1) / 2) + 1) * d
    ensures 2 * Abs(y - (q + 1) / 2 * d) < d
  {
    var m := (q + 1) / 2;
    assert q == 2 * m ==> q * d == 2 * (m * d);
    assert q == 2 * m - 1 ==> q * d == 2 * (m * d) - d;
  }

  lemma QuotientRange(n: nat, d: nat, t: nat, q: nat)
    requires 0 < d < t && d <= n < 2 * d && q * d <= n * t < q * d + d
    ensures t <= q <= 2 * t - 2
  {
    ScaledBounds(n, d, t);
    Multiples(q, t, d);
    if q < t { MulMonotone(q + 1, t, d); }
    if q > 2 * t - 2 { MulMonotone(2 * t - 1, q, d); }
  }

  lemma ScaledBounds(n: nat, d: nat, t: nat)
    requires d <= n < 2 * d
    ensures t * d <= n * t <= 2 * (t * d) - t
  {
    MulMonotone(d, n, t);
    MulMonotone(n, 2 * d - 1, t);
    assert (2 * d - 1) * t == 2 * (t * d) - t;
  }

  lemma Multiples(q: int, t: int, d: int)
    ensures (q + 1) * d == q * d + d && (2 * t - 1) * d == 2 * (t * d) - d
  {}

  // The result exponent, before it is known to fit its field.
  function QuotientExp(f: Format, a: nat, b: nat): int
    requires f.p >= 1
  {
    Exp(f, a) - Exp(f, b) + f.Excess() + (if Mant(f, a) < Mant(f, b) then 0 else 1)
  }

  function ScaledMant(f: Format, a: nat, b: nat): nat
    requires f.p >= 1
  {
    if Mant(f, a) < Mant(f, b) then 2 * Mant(f, a) else Mant(f, a)
  }

  // The exact quotient in terms of the mantissas the loop divides.
  lemma QuotientValue(f: Format, a: nat, b: nat)
    requires f.p >= 2 && IsWord(f, a) && IsWord(f, b)
    ensures var e := QuotientExp(f, a, b) + Exp(f, b);
      e >= 0 && Magnitude(f, a) * f.One() == ScaledMant(f, a, b) * Pow2(f.p - 1) * Pow2(e)
  {
    var e, m, p1 := QuotientExp(f, a, b) + Exp(f, b), Mant(f, a), f.p - 1;
    if m < Mant(f, b) {
      NextPower(m, p1);
      RegroupPowers(m, Exp(f, a), f.Excess() + f.p, p1 + 1, e);
    } else {
      RegroupPowers(m, Exp(f, a), f.Excess() + f.p, p1, e);
    }
  }

  lemma RegroupPowers(m: nat, a: nat, b: nat, c: nat, d: nat)
    requires a + b == c + d
    ensures m * Pow2(a) * Pow2(b) == m * Pow2(c) * Pow2(d)
  {
    hide Pow2;
    TwoFactors(m, a, b, a + b);
    TwoFactors(m, c, d, a + b);
  }

  // A quotient in the normal range has an exponent in the field.
  lemma QuotientExpInRange(f: Format, a: nat, b: nat)
    requires f.p >= 2 && IsWord(f, a) && IsWord(f, b)
    requires InRange(f, QuotientNumerator(f, a, b), Magnitude(f, b))
    ensures 1 <= QuotientExp(f, a, b) <= f.MaxExp()
  {
    hide Pow2;
    MantBounds(f, a);
    MantBounds(f, b);
    QuotientValue(f, a, b);
    ExponentOfRatio(f.Hidden(), ScaledMant(f, a, b), Mant(f, b), QuotientExp(f, a, b), Exp(f, b), f.MaxExp());
  }

  lemma ExponentOfRatio(h: nat, n: nat, d: nat, e: int, e2: nat, max: nat)
    requires h > 0 && 0 < d <= n < 2 * d && e + e2 >= 0
    requires h * Pow2(1) * (d * Pow2(e2)) <= n * h * Pow2(e + e2) <= (2 * h - 1) * Pow2(max) * (d * Pow2(e2))
    ensures 1 <= e <= max
  {
    MulMonotone(d, n, h);
    MulStrict(n, 2 * d, h);
    Associate(2, d, h);
    if e < 1 { TooSmall(h, n * h, d, e, e2); }
    if e > max { TooLarge(h, n * h, d, e, e2, max); }
  }

  lemma TooSmall(h: nat, n: nat, d: nat, e: int, e2: nat)
    requires n < 2 * (d * h) && e < 1 && e + e2 >= 0
    ensures n * Pow2(e + e2) < h * Pow2(1) * (d * Pow2(e2))
  {
    Pow2Monotone(e + e2, e2);
    MulMonotone(Pow2(e + e2), Pow2(e2), n);
    MulStrict(n, 2 * (d * h), Pow2(e2));
    assert 2 * (d * h) * Pow2(e2) == h * 2 * (d * Pow2(e2)) by {
      Associate(2 * h, d, Pow2(e2));
      assert 2 * (d * h) == 2 * h * d;
    }
  }

  lemma TooLarge(h: nat, n: nat, d: nat, e: int, e2: nat, max: nat)
    requires d * h <= n && e > max && d > 0 && h > 0
    ensures n * Pow2(e + e2) > (2 * h - 1) * Pow2(max) * (d * Pow2(e2))
  {
    var y := d * Pow2(e2);
    Pow2Sum(e, e2);
    MulMonotone(d * h, n, Pow2(e) * Pow2(e2));
    Exchange(d, h, Pow2(e), Pow2(e2));
    MulStrict(0, d, Pow2(e2));
    BiggerPower(h, max, e);
    MulStrict((2 * h - 1) * Pow2(max), h * Pow2(e), y);
  }

  lemma BiggerPower(h: nat, max: nat, e: nat)
    requires h > 0 && e > max
    ensures (2 * h - 1) * Pow2(max) < h * Pow2(e)
  {
    Pow2Increasing(max, e);
    MulMonotone(2 * Pow2(max), Pow2(e), h);
    DoubledLessOne(h, Pow2(max));
  }

  lemma DoubledLessOne(h: int, k: int)
    ensures (2 * h - 1) * k == 2 * k * h - k
  {}

  lemma Exchange(d: int, h: int, x: int, y: int)
    ensures d * h * (x * y) == h * x * (d * y)
  {
    Associate(d, h, x * y);
    Associate(h, x, y);
    Associate(h * x, d, y);
    assert d * (h * x * y) == h * x * d * y by { Associate(d, h * x, y); }
  }

  // The word computed from mantissas and exponents is the nearest one.
  lemma QuotientIsNearest(f: Format, a: nat, b: nat)
    requires f.p >= 2 && IsWord(f, a) && IsWord(f, b)
    requires InRange(f, QuotientNumerator(f, a, b), Magnitude(f, b))
    ensures var m := (ScaledMant(f, a, b) * Pow2(f.p) / Mant(f, b) + 1) / 2;
      && f.Hidden() <= m < Pow2(f.p)
      && IsNearest(f, QuotientNumerator(f, a, b), Magnitude(f, b),
                   Pack(f, Sign(f, a) != Sign(f, b), QuotientExp(f, a, b), m - f.Hidden()))
  {
    var n, d, e, e2 := ScaledMant(f, a, b), Mant(f, b), QuotientExp(f, a, b), Exp(f, b);
    var sign := Sign(f, a) != Sign(f, b);
    MantBounds(f, a);
    MantBounds(f, b);
    RoundedQuotient(f.p, n, d);
    QuotientExpInRange(f, a, b);
    QuotientValue(f, a, b);
    RatioIsNearest(f, sign, n, d, e, e2, (n * Pow2(f.p) / d + 1) / 2);
  }

  lemma RatioIsNearest(f: Format, sign: bool, n: nat, d: nat, e: int, e2: nat, m: nat)
    requires f.p >= 2 && 0 < d <= n && 1 <= e <= f.MaxExp()
    requires f.Hidden() <= m < Pow2(f.p) && 2 * Abs(n * f.Hidden() - m * d) < d
    ensures var x := n * f.Hidden() * Pow2(e + e2);
      IsNearest(f, if sign then -x else x, d * Pow2(e2), Pack(f, sign, e, m - f.Hidden()))
  {
    var nh, k := n * f.Hidden(), Pow2(e2);
    var x := nh * Pow2(e);
    MulMonotone(d, n, f.Hidden());
    RoundedIsNearest(f, sign, nh, d, e, m, if sign then -x else x);
    Pow2Sum(e, e2);
    Associate(nh, Pow2(e), k);
    NegatedProduct(x, k);
    ScaleNearest(f, if sign then -x else x, d, PackRounded(f, sign, e, m), k);
  }

  lemma ScaleNearest(f: Format, x: int, y: nat, r: int, k: nat)
    requires f.p >= 1 && k > 0 && IsNearest(f, x, y, r)
    ensures IsNearest(f, x * k, y * k, r)
  {
    forall c | Normal(f, c) && c != r
      ensures Abs(x * k - Value(f, r) * (y * k)) < Abs(x * k - Value(f, c) * (y * k))
    {
      ScaleDistanceBy(x, Value(f, r), y, k);
      ScaleDistanceBy(x, Value(f, c), y, k);
      MulStrict(Abs(x - Value(f, r) * y), Abs(x - Value(f, c) * y), k);
    }
  }

  lemma ScaleDistanceBy(x: int, v: int, y: nat, k: nat)
    ensures Abs(x * k - v * (y * k)) == Abs(x - v * y) * k
  {
    Associate(v, y, k);
    assert (x - v * y) * k == x * k - v * y * k;
    AbsScale(x - v * y, k);
  }

  // Normal operands whose exact quotient lies in the normal range.
  ghost predicate DividesInRange(f: Format, a: nat, b: nat)
    requires f.p >= 1
  {
    Normal(f, a) && Normal(f, b) && InRange(f, QuotientNumerator(f, a, b), Magnitude(f, b))
  }

  // The common part of the two routines, for operands that are not zero words.
  method Divide(f: Format, a: nat, b: nat) returns (r: nat)
    requires f.p >= 2 && IsWord(f, a) && IsWord(f, b)
    ensures DividesInRange(f, a, b) ==> IsNearest(f, QuotientNumerator(f, a, b), Magnitude(f, b), r)
  {
    MantBounds(f, a);
    MantBounds(f, b);
    var exp := Exp(f, a) - Exp(f, b) + f.Excess();
    var sign := Sign(f, a) != Sign(f, b);
    var num, den := Mant(f, a), Mant(f, b);
    if num < den {
      num := 2 * num;
      exp := exp - 1;
    }
    var result := QuotientBits(f.p, num, den);
    RoundedQuotient(f.p, num, den);
    result := result + 1;
    exp := exp + 1;
    result := result / 2;
    QuotientUnique(result, f.Hidden(), 1, result - f.Hidden());
    result := result % f.Hidden();
    r := Pack(f, sign, exp, result);
    if DividesInRange(f, a, b) {
      QuotientIsNearest(f, a, b);
    }
  }

  // The results of dividing by zero in __divsf3: its integers 0xFFFFFFFF and 0x7FFFFFFF are converted to
  // float, which makes them the numbers 2^32 and 2^31.
  const TWO_TO_32: nat := 0x4F80_0000
  const TWO_TO_31: nat := 0x4F00_0000

  method DivSf3(a: nat, b: nat) returns (r: nat)
    requires IsWord(SINGLE, a) && IsWord(SINGLE, b)
    ensures b == 0 ==> r == if Sign(SINGLE, a) then TWO_TO_32 else TWO_TO_31
    ensures b != 0 && a == 0 ==> r == 0
    ensures b != 0 && a != 0 && DividesInRange(SINGLE, a, b) ==>
              IsNearest(SINGLE, QuotientNumerator(SINGLE, a, b), Magnitude(SINGLE, b), r)
  {
    if b == 0 {
      return if Sign(SINGLE, a) then TWO_TO_32 else TWO_TO_31;
    }
    if a == 0 { return 0; }
    r := Divide(SINGLE, a, b);
  }

  method DivDf3(a: nat, b: nat) returns (r: nat)
    requires IsWord(DOUBLE, a) && IsWord(DOUBLE, b)
    ensures a == 0 && b == 0 ==> r == Pow2(63) - 1
    ensures a == 0 && b != 0 ==> r == 0
    ensures a != 0 && b == 0 ==> r == Pack(DOUBLE, Sign(DOUBLE, a), DOUBLE.MaxExp() + 1, 0)
    ensures a != 0 && b != 0 && DividesInRange(DOUBLE, a, b) ==>
              IsNearest(DOUBLE, QuotientNumerator(DOUBLE, a, b), Magnitude(DOUBLE, b), r)
  {
    if a == 0 {
      return if b == 0 then Pow2(63) - 1 else 0;
    }
    if b == 0 {
      return Pack(DOUBLE, Sign(DOUBLE, a), DOUBLE.MaxExp() + 1, 0);
    }
    r := Divide(DOUBLE, a, b);
  }
}

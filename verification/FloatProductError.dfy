/** How close __mulsf3 and __muldf3 come to the exact product. */
module FloatProductError {
  import opened PowersOfTwo
  import opened FloatFormat
  import opened FloatRounding
  import opened FloatMultiplication

  // The exact product of two words is Product / One, in units of Magnitude.
  function Product(f: Format, a: nat, b: nat): int
    requires f.p >= 1
  {
    Value(f, a) * Value(f, b)
  }

  ghost predicate MultipliesInRange(f: Format, a: nat, b: nat)
    requires f.p >= 1
  {
    Normal(f, a) && Normal(f, b) && InRange(f, Product(f, a, b), f.One())
  }

  // What one unit of the rounded mantissa stands for in the product of the mantissas.
  function MantUnit(f: Format, r: nat): nat
    requires f.p >= 1
  {
    if Long(f, r) then Pow2(f.p) else Pow2(f.p - 1)
  }

  function ExpSum(f: Format, a: nat, b: nat): nat
    requires f.p >= 1
  {
    Exp(f, a) + Exp(f, b)
  }

  lemma ProductMagnitude(f: Format, a: nat, b: nat)
    requires f.p >= 1
    ensures Abs(Product(f, a, b)) == Mant(f, a) * Mant(f, b) * Pow2(ExpSum(f, a, b))
    ensures Product(f, a, b) < 0 <==> Sign(f, a) != Sign(f, b)
  {
    hide Pow2;
    var m1, m2, x1, x2 := Mant(f, a), Mant(f, b), Pow2(Exp(f, a)), Pow2(Exp(f, b));
    Pow2Sum(Exp(f, a), Exp(f, b));
    Shuffle(m1, x1, m2, x2);
    MantBounds(f, a);
    MantBounds(f, b);
    SignedProduct(Sign(f, a), m1 * x1, Sign(f, b), m2 * x2);
    MulStrict(0, m1, x1);
    MulStrict(0, m2, x2);
  }

  lemma Shuffle(m1: nat, x1: nat, m2: nat, x2: nat)
    ensures m1 * x1 * (m2 * x2) == m1 * m2 * (x1 * x2)
  {
    Associate(m1 * x1, m2, x2);
    Associate(m1, x1, m2);
    Associate(m1, m2, x1);
    Associate(m1 * m2, x1, x2);
  }

  lemma SignedProduct(s1: bool, x: int, s2: bool, y: int)
    requires x > 0 && y > 0
    ensures var v, w := if s1 then -x else x, if s2 then -y else y;
      Abs(v * w) == x * y && (v * w < 0 <==> s1 != s2)
  {
    MulStrict(0, x, y);
    assert (-x) * y == -(x * y) && x * (-y) == -(x * y) && (-x) * (-y) == x * y;
  }

  // The mantissa product against the rounded mantissa, in words of g: off by at most 2^(g-1) + 3 parts in 2^g.
  lemma MantError(f: Format, a: nat, b: nat)
    requires Splits(f)
    ensures var r := HighProduct(f, a, b);
      var m, u, x := ProductMant(f, r), MantUnit(f, r), Mant(f, a) * Mant(f, b);
      && f.Hidden() <= m <= Pow2(f.p)
      && Abs(x - m * u) * Pow2(f.g) < (Pow2(f.g - 1) + 3) * u
  {
    hide Pow2, HighProduct, ProductMant, TopBit, Mant, Long;
    var r := HighProduct(f, a, b);
    SplitSizes(f);
    HighProductBounds(f, a, b);
    ProductMantBounds(f, r);
    UnitScales(f, r);
    var q := 4 * (Pow2(LowBits(f)) * Pow2(LowBits(f)));
    TruncationAndRounding(Mant(f, a) * Mant(f, b), r, q, ProductMant(f, r), Unit(f, r));
    HalfUnits(f, r);
    ScaleError(Abs(Mant(f, a) * Mant(f, b) - ProductMant(f, r) * MantUnit(f, r)), Unit(f, r), q, MantUnit(f, r),
               Pow2(f.g), Pow2(f.g - 1));
  }

  // q rounding units make one unit of the mantissa.
  lemma UnitScales(f: Format, r: nat)
    requires Splits(f)
    ensures Unit(f, r) * (4 * (Pow2(LowBits(f)) * Pow2(LowBits(f)))) == MantUnit(f, r)
  {
    hide Pow2;
    SplitSizes(f);
    var q := 4 * (Pow2(LowBits(f)) * Pow2(LowBits(f)));
    NextPower(1, f.g - 1);
    NextPower(1, f.p - 1);
    assert q * Pow2(f.g) == 2 * (Pow2(f.g - 1) * q) by { Associate(2, Pow2(f.g - 1), q); }
  }

  lemma HalfUnits(f: Format, r: nat)
    requires f.p >= 1 && f.g >= 3
    ensures Pow2(f.g) == 2 * Pow2(f.g - 1) && Pow2(f.g - 1) >= 4
    ensures Unit(f, r) == Pow2(f.g) || Unit(f, r) == Pow2(f.g - 1)
  {
    assert Pow2(f.g - 1) == 4 * Pow2(f.g - 3);
  }

  lemma TruncationAndRounding(x: nat, r: nat, q: nat, m: nat, u: nat)
    requires r * q <= x && 2 * x < (2 * r + 3) * q && 2 * Abs(r - m * u) <= u && q > 0
    ensures 2 * Abs(x - m * (u * q)) < (u + 3) * q
  {
    Associate(m, u, q);
    RemainderScaled(r, m * u, u, q);
    assert (2 * r + 3) * q == 2 * (r * q) + 3 * q;
    assert (u + 3) * q == u * q + 3 * q;
  }

  lemma RemainderScaled(r: int, mu: int, u: int, q: nat)
    requires 2 * Abs(r - mu) <= u
    ensures 2 * Abs(r * q - mu * q) <= u * q
  {
    assert (r - mu) * q == r * q - mu * q;
    AbsScale(r - mu, q);
    MulMonotone(2 * Abs(r - mu), u, q);
    Associate(2, Abs(r - mu), q);
  }

  // An error below (u + 3) / 2 parts of size q, when u is 2 * half or half of them, is below half + 3 parts
  // in 2 * half of u * q.
  lemma ScaleError(err: nat, u: nat, q: nat, big: nat, g: nat, half: nat)
    requires u * q == big && 2 * err < (u + 3) * q && q > 0 && g == 2 * half && half >= 1
    requires u == g || u == half
    ensures err * g < (half + 3) * big
  {
    MulStrict(2 * err, (u + 3) * q, half);
    assert 2 * err * half == err * g by { Associate(err, 2, half); }
    assert (u + 3) * q * half == (u + 3) * half * q by { Associate(u + 3, q, half); Associate(u + 3, half, q); }
    assert (half + 3) * big == (half + 3) * u * q by { Associate(half + 3, u, q); }
    if u == g {
      assert (half + 3) * u == 2 * (half * half) + 6 * half;
      assert (u + 3) * half == 2 * (half * half) + 3 * half;
      MulMonotone((u + 3) * half, (half + 3) * u, q);
    }
  }

  // ---------------------------------------------------------------- the exponent of the result

  // With the exponent e the routine computes, U units of 2^S in the product are one unit of the result.
  lemma UnitOfResult(f: Format, a: nat, b: nat)
    requires Splits(f) && ProductExp(f, a, b, HighProduct(f, a, b)) >= 0
    ensures var r := HighProduct(f, a, b);
      MantUnit(f, r) * Pow2(ExpSum(f, a, b)) == Pow2(ProductExp(f, a, b, r)) * f.One()
  {
    hide Pow2, HighProduct, Long, Exp;
    var r := HighProduct(f, a, b);
    var e, x := ProductExp(f, a, b, r), f.Excess() + f.p;
    Pow2Sum(e, x);
    if Long(f, r) {
      Pow2Sum(f.p, ExpSum(f, a, b));
      assert f.p + ExpSum(f, a, b) == e + x;
    } else {
      Pow2Sum(f.p - 1, ExpSum(f, a, b));
      assert f.p - 1 + ExpSum(f, a, b) == e + x;
    }
  }

  // The final exponent, after the mantissa may have carried.
  function FinalExp(f: Format, a: nat, b: nat): int
    requires Splits(f)
  {
    var r := HighProduct(f, a, b);
    if ProductMant(f, r) == Pow2(f.p) then ProductExp(f, a, b, r) + 1 else ProductExp(f, a, b, r)
  }

  lemma MantProductBounds(f: Format, a: nat, b: nat)
    requires f.p >= 1
    ensures f.Hidden() * f.Hidden() <= Mant(f, a) * Mant(f, b) < Pow2(f.p) * Pow2(f.p)
  {
    hide Pow2;
    var h, m1, m2 := f.Hidden(), Mant(f, a), Mant(f, b);
    MantBounds(f, a);
    MantBounds(f, b);
    MulMonotone(h, m1, h);
    MulMonotone(h, m2, m1);
    MulMonotone(m1, Pow2(f.p), m2);
    MulStrict(m2, Pow2(f.p), Pow2(f.p));
  }

  // A product at least as large as the smallest normal number gets an exponent of at least 1.
  lemma FinalExpAtLeastOne(f: Format, a: nat, b: nat)
    requires Splits(f) && MultipliesInRange(f, a, b)
    ensures ProductExp(f, a, b, HighProduct(f, a, b)) >= 0 && FinalExp(f, a, b) >= 1
  {
    hide Pow2, HighProduct, ProductMant, Long, Mant, Exp, Product;
    var r := HighProduct(f, a, b);
    var e, x, s, p2 := ProductExp(f, a, b, r), Mant(f, a) * Mant(f, b), ExpSum(f, a, b), Pow2(f.p);
    ProductMagnitude(f, a, b);
    MantProductBounds(f, a, b);
    SplitSizes(f);
    NextPower(f.Hidden(), 0);
    PowerZero();
    if s <= f.Excess() {
      LowerBoundFails(x, s, f.Excess(), p2, f.p);
    }
    if e == 0 {
      assert !Long(f, r) && s == f.Excess() + 1;
      JustBelowTop(f, a, b, x, s);
    }
  }

  lemma PowerZero()
    ensures Pow2(0) == 1 && Pow2(1) == 2
  {}

  lemma LowerBoundFails(x: nat, s: nat, k: nat, t: nat, p: nat)
    requires s <= k && x < t * t && t == Pow2(p)
    ensures x * Pow2(s) < t * Pow2(k + p)
  {
    hide Pow2;
    Pow2Monotone(s, k);
    MulMonotone(Pow2(s), Pow2(k), x);
    MulStrict(x, t * t, Pow2(k));
    Pow2Sum(k, p);
    Associate(t, t, Pow2(k));
  }

  // One binade below, only a product within 1.5 units of the top is in range, and it rounds up to the top.
  lemma JustBelowTop(f: Format, a: nat, b: nat, x: nat, s: nat)
    requires Splits(f) && x == Mant(f, a) * Mant(f, b) && s == f.Excess() + 1
    requires !Long(f, HighProduct(f, a, b))
    requires x * Pow2(s) >= Pow2(f.p) * f.One()
    ensures ProductMant(f, HighProduct(f, a, b)) == Pow2(f.p)
  {
    hide Pow2, HighProduct, ProductMant, Long, Mant;
    var r, q, t := HighProduct(f, a, b), 4 * (Pow2(LowBits(f)) * Pow2(LowBits(f))), Pow2(f.p);
    SplitSizes(f);
    HighProductBounds(f, a, b);
    ProductMantBounds(f, r);
    AtLeastHalfSquare(x, f.Excess(), t, f.p);
    HalfUnits(f, r);
    TopSquare(t, f.Hidden(), q, Pow2(f.g), TopBit(f));
    assert 2 * TopBit(f) < 2 * r + 3 by { MulCancel(2 * TopBit(f), 2 * r + 3, q); }
    UnitBelowTop(f, t);
  }

  lemma AtLeastHalfSquare(x: nat, k: nat, t: nat, p: nat)
    requires t == Pow2(p) && x * Pow2(k + 1) >= t * Pow2(k + p)
    ensures 2 * x >= t * t
  {
    hide Pow2;
    NextPower(x, k);
    Pow2Sum(k, p);
    Associate(t, t, Pow2(k));
    MulCancel(2 * x, t * t, Pow2(k));
  }

  lemma TopSquare(t: nat, h: nat, q: nat, g: nat, top: nat)
    requires t == 2 * h && top == h * g && q * g == t
    ensures 2 * top * q == t * t
  {
    assert 2 * (h * g) * q == 2 * h * (q * g) by { Associate(2 * h, g, q); Associate(2, h, g); }
  }

  lemma UnitBelowTop(f: Format, t: nat)
    requires Splits(f) && t == Pow2(f.p)
    ensures t * Pow2(f.g - 1) == TopBit(f)
  {
    Pow2Sum(f.p, f.g - 1);
  }

  // A product no larger than the largest normal number gets an exponent within the field.
  lemma FinalExpAtMostMax(f: Format, a: nat, b: nat)
    requires Splits(f) && MultipliesInRange(f, a, b)
    ensures FinalExp(f, a, b) <= f.MaxExp()
  {
    hide Pow2, HighProduct, ProductMant, Long, Mant, Exp, Product;
    var r := HighProduct(f, a, b);
    var e, x, s := ProductExp(f, a, b, r), Mant(f, a) * Mant(f, b), ExpSum(f, a, b);
    ProductMagnitude(f, a, b);
    if e >= f.MaxExp() {
      ProductAboveUnit(f, a, b);
      UnitOfResult(f, a, b);
      AtMostLargest(x, Pow2(s), MantUnit(f, r), Pow2(f.p), Pow2(f.MaxExp()), Pow2(e), f.One());
      if e > f.MaxExp() { Pow2Increasing(f.MaxExp(), e); }
    }
  }

  // The mantissa product is at least half the top mantissa, and within half a unit of the top if it carried.
  lemma ProductAboveUnit(f: Format, a: nat, b: nat)
    requires Splits(f)
    ensures var r, x := HighProduct(f, a, b), Mant(f, a) * Mant(f, b);
      && 2 * x >= Pow2(f.p) * MantUnit(f, r)
      && (ProductMant(f, r) == Pow2(f.p) ==> 2 * x >= (2 * Pow2(f.p) - 1) * MantUnit(f, r))
  {
    hide Pow2, HighProduct, ProductMant, Long, Mant, TopBit, Unit, MantUnit;
    var r, q, x := HighProduct(f, a, b), 4 * (Pow2(LowBits(f)) * Pow2(LowBits(f))), Mant(f, a) * Mant(f, b);
    var t, u := Pow2(f.p), Unit(f, r);
    SplitSizes(f);
    HighProductBounds(f, a, b);
    ProductMantBounds(f, r);
    UnitScales(f, r);
    AtLeastHalfTop(f, r);
    ScaleBound(x, r, q, t * u, t, u);
    if ProductMant(f, r) == t { ScaleTop(x, r, q, t, u); }
  }

  lemma ScaleTop(x: nat, r: nat, q: nat, t: nat, u: nat)
    requires r * q <= x && 2 * r >= 2 * (t * u) - u
    ensures 2 * x >= (2 * t - 1) * (u * q)
  {
    assert (2 * t - 1) * u == 2 * (t * u) - u;
    ScaleBound(x, r, q, (2 * t - 1) * u, 2 * t - 1, u);
  }

  lemma ScaleBound(x: nat, r: nat, q: nat, bound: int, k: int, u: nat)
    requires r * q <= x && 2 * r >= bound == k * u
    ensures 2 * x >= k * (u * q)
  {
    MulMonotone(bound, 2 * r, q);
    Associate(k, u, q);
    Associate(2, r, q);
  }

  lemma AtLeastHalfTop(f: Format, r: nat)
    requires Splits(f) && TopBit(f) <= 2 * r < 4 * TopBit(f)
    ensures 2 * r >= Pow2(f.p) * Unit(f, r)
  {
    hide Pow2;
    SplitSizes(f);
    LongIff(f, r);
    UnitBelowTop(f, Pow2(f.p));
    Associate(2, f.Hidden(), Pow2(f.g));
  }

  lemma AtMostLargest(x: nat, b: nat, u: nat, t: nat, max: nat, e: nat, one: nat)
    requires b > 0 && u > 0 && t > 0 && one > 0 && max > 0
    requires x * b <= (t - 1) * max * one && u * b == e * one
    requires 2 * x >= t * u
    ensures e < 2 * max
    ensures e == max ==> 2 * x < (2 * t - 1) * u
  {
    Associate(t - 1, max, one);
    MulMonotone(t * u, 2 * x, b);
    Associate(t, u, b);
    Associate(2, x, b);
    if e >= 2 * max { TwiceTooLarge(x * b, t, max, e, one); }
    if e == max {
      Associate(t - 1, u, b);
      MulCancel((t - 1) * u, x, b);
      assert 2 * ((t - 1) * u) == (2 * t - 1) * u - u;
    }
  }

  lemma TwiceTooLarge(xb: nat, t: nat, max: nat, e: nat, one: nat)
    requires t > 0 && max > 0 && one > 0 && e >= 2 * max
    requires xb <= (t - 1) * (max * one)
    ensures 2 * xb < t * (e * one)
  {
    var k := max * one;
    MulStrict(0, max, one);
    MulMonotone(2 * max, e, one);
    Associate(2, max, one);
    MulMonotone(2 * k, e * one, t);
    assert (t - 1) * k == t * k - k;
  }

  // ---------------------------------------------------------------- the theorems

  lemma MulIsPacked(f: Format, a: nat, b: nat)
    requires Splits(f) && MultipliesInRange(f, a, b)
    ensures var r := HighProduct(f, a, b);
      && f.Hidden() <= ProductMant(f, r) <= Pow2(f.p) && ProductExp(f, a, b, r) >= 0
      && 1 <= FinalExp(f, a, b) <= f.MaxExp()
      && MulWords(f, a, b) == PackRounded(f, Product(f, a, b) < 0, ProductExp(f, a, b, r), ProductMant(f, r))
  {
    hide Pow2, HighProduct, ProductMant, ProductExp, Mant, Exp, Product, Pack, Sign;
    var m := ProductMant(f, HighProduct(f, a, b));
    MantError(f, a, b);
    FinalExpAtLeastOne(f, a, b);
    FinalExpAtMostMax(f, a, b);
    ProductMagnitude(f, a, b);
    NormalIsNonZero(f, a);
    NormalIsNonZero(f, b);
    SplitSizes(f);
    CarryBit(m, f.Hidden());
  }

  lemma CarryBit(m: nat, h: nat)
    requires h >= 1 && h <= m <= 2 * h
    ensures m / (2 * h) % 2 == 1 <==> m == 2 * h
    ensures m == 2 * h ==> m / 2 % h == 0
    ensures m < 2 * h ==> m % h == m - h
  {
    if m == 2 * h {
      QuotientUnique(m, 2 * h, 1, 0);
      QuotientUnique(h, h, 1, 0);
    } else {
      QuotientUnique(m, 2 * h, 0, m);
      QuotientUnique(m, h, 1, m - h);
    }
  }

  // Every in-range product is within (2^(g-1) + 3) / 2^g units in the last place of the exact one: 35/64 for
  // single, 259/512 for double.
  lemma ProductError(f: Format, a: nat, b: nat)
    requires Splits(f) && MultipliesInRange(f, a, b)
    ensures var r := MulWords(f, a, b);
      && Normal(f, r)
      && Abs(Product(f, a, b) - Value(f, r) * f.One()) * Pow2(f.g) < (Pow2(f.g - 1) + 3) * (Pow2(Exp(f, r)) * f.One())
  {
    hide Pow2, HighProduct, ProductMant, ProductExp, Mant, Exp, Product, Sign, MulWords, PackRounded, Magnitude,
      MantUnit, ExpSum, Normal, InRange, Value, Abs;
    var h, r := HighProduct(f, a, b), MulWords(f, a, b);
    var m, e, x, b2 := ProductMant(f, h), ProductExp(f, a, b, h), Mant(f, a) * Mant(f, b), Pow2(ExpSum(f, a, b));
    MulIsPacked(f, a, b);
    MantError(f, a, b);
    ProductMagnitude(f, a, b);
    UnitOfResult(f, a, b);
    PackRoundedFields(f, Product(f, a, b) < 0, e, m);
    DistanceInUnits(f, a, b, r, x, m, e, b2, MantUnit(f, h));
    ScaledError(Abs(x - m * MantUnit(f, h)), b2, Pow2(f.g), Pow2(f.g - 1) + 3, MantUnit(f, h));
    RaiseExponent(Abs(Product(f, a, b) - Value(f, r) * f.One()) * Pow2(f.g), Pow2(f.g - 1) + 3, e, Exp(f, r), f.One());
  }

  lemma RaiseExponent(d: int, k: nat, e: nat, e2: nat, one: nat)
    requires d < k * (Pow2(e) * one) && e <= e2
    ensures d < k * (Pow2(e2) * one)
  {
    hide Pow2;
    Pow2Monotone(e, e2);
    MulMonotone(Pow2(e), Pow2(e2), one);
    MulMonotone(Pow2(e) * one, Pow2(e2) * one, k);
  }

  // The distance between the exact product and the result, in units of 2^S.
  lemma DistanceInUnits(f: Format, a: nat, b: nat, r: nat, x: nat, m: nat, e: nat, b2: nat, u: nat)
    requires f.p >= 1 && Abs(Product(f, a, b)) == x * b2 && u * b2 == Pow2(e) * f.One()
    requires Sign(f, r) == (Product(f, a, b) < 0) && Magnitude(f, r) == m * Pow2(e)
    ensures Abs(Product(f, a, b) - Value(f, r) * f.One()) == Abs(x - m * u) * b2
  {
    hide Pow2, Product, Sign, Magnitude;
    var one := f.One();
    Associate(m, Pow2(e), one);
    Associate(m, u, b2);
    NegatedProduct(Magnitude(f, r), one);
    assert (x - m * u) * b2 == x * b2 - m * u * b2;
    AbsScale(x - m * u, b2);
  }

  lemma ScaledError(d: nat, b: nat, g: nat, k: nat, u: nat)
    requires d * g < k * u && b > 0
    ensures d * b * g < k * (u * b)
  {
    MulStrict(d * g, k * u, b);
    Associate(d, b, g);
    Associate(d, g, b);
    Associate(k, u, b);
  }

  // Multiplying by a power of two is exact, whichever factor it is.
  lemma PowerOfTwoIsExact(f: Format, a: nat, b: nat)
    requires Splits(f) && MultipliesInRange(f, a, b)
    requires Mant(f, a) == f.Hidden() || Mant(f, b) == f.Hidden()
    ensures Value(f, MulWords(f, a, b)) * f.One() == Product(f, a, b)
  {
    hide Pow2, Mant, Exp, Product, MulWords, Normal, InRange, Value;
    if Mant(f, b) == f.Hidden() {
      SecondPowerOfTwo(f, a, b);
    } else {
      MulCommutes(f, a, b);
      ProductCommutes(f, a, b);
      SecondPowerOfTwo(f, b, a);
    }
  }

  lemma ProductCommutes(f: Format, a: nat, b: nat)
    requires f.p >= 1
    ensures Product(f, a, b) == Product(f, b, a)
  {
    hide Value;
  }

  lemma SecondPowerOfTwo(f: Format, a: nat, b: nat)
    requires Splits(f) && MultipliesInRange(f, a, b) && Mant(f, b) == f.Hidden()
    ensures Value(f, MulWords(f, a, b)) * f.One() == Product(f, a, b)
  {
    hide Pow2, HighProduct, ProductMant, ProductExp, Mant, Exp, Product, Sign, MulWords, PackRounded, Magnitude,
      MantUnit,
      ExpSum, Normal, InRange;
    var h, r := HighProduct(f, a, b), MulWords(f, a, b);
    var m, e, x, b2 := ProductMant(f, h), ProductExp(f, a, b, h), Mant(f, a) * Mant(f, b), Pow2(ExpSum(f, a, b));
    MulIsPacked(f, a, b);
    ProductMagnitude(f, a, b);
    UnitOfResult(f, a, b);
    PackRoundedFields(f, Product(f, a, b) < 0, e, m);
    DistanceInUnits(f, a, b, r, x, m, e, b2, MantUnit(f, h));
    ShiftedMantissa(f, a, b);
  }

  lemma ShiftedMantissa(f: Format, a: nat, b: nat)
    requires Splits(f) && Mant(f, b) == f.Hidden()
    ensures var r := HighProduct(f, a, b);
      Mant(f, a) * Mant(f, b) == ProductMant(f, r) * MantUnit(f, r)
  {
    hide Pow2;
    SplitSizes(f);
    MantBounds(f, a);
    var m := Mant(f, a);
    SmallPowers();
    if f == SINGLE {
      SingleShift(m);
    } else {
      DoubleShift(m);
    }
  }

  lemma SmallPowers()
    ensures Pow2(4) == 0x10 && Pow2(5) == 0x20 && Pow2(6) == 0x40 && Pow2(7) == 0x80 && Pow2(8) == 0x100
    ensures Pow2(9) == 0x200
  {}

  lemma SingleShift(m: nat)
    requires 0x80_0000 <= m < 0x100_0000
    ensures PartialProducts(LOW_SINGLE, m, 0x80_0000) == 0x80 * m
  {}

  lemma DoubleShift(m: nat)
    requires 0x10_0000_0000_0000 <= m < 0x20_0000_0000_0000
    ensures PartialProducts(LOW_DOUBLE, m, 0x10_0000_0000_0000) == 0x400 * m
  {}
}

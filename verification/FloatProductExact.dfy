/**
 Exactly when __mulsf3 and __muldf3 round correctly. They round halves up, and what the high product drops can carry
 a product from just below the half-way point onto or over it. Nothing else goes wrong.
 */
module FloatProductExact {
  import opened PowersOfTwo
  import opened FloatFormat
  import opened FloatRounding
  import opened FloatMultiplication
  import opened FloatProductError

  // What one unit of the high product stands for in the product of the mantissas.
  function Place(f: Format): nat
    requires LowBits(f) >= 0
  {
    4 * (Pow2(LowBits(f)) * Pow2(LowBits(f)))
  }

  // The part of the exact product that the high product leaves out.
  function Dropped(f: Format, a: nat, b: nat): int
    requires f.p >= 1 && LowBits(f) >= 0
  {
    Mant(f, a) * Mant(f, b) - HighProduct(f, a, b) * Place(f)
  }

  // k units and t places are rounded up from half a unit on, but d says that the product is only half-way and k is
  // even, or that it is past half-way, or half-way and k is odd, although t is one place short.
  predicate Wrong(k: int, t: int, half: int, d: int, q: int) {
    || (t == half && d == 0 && k % 2 == 0)
    || (t == half - 1 && (d > q || (d == q && k % 2 == 1)))
  }

  predicate Misrounds(f: Format, a: nat, b: nat)
    requires f.p >= 1 && f.g >= 2 && LowBits(f) >= 0
  {
    var r := HighProduct(f, a, b);
    var u := Unit(f, r);
    Wrong(r / u, r % u, u / 2, Dropped(f, a, b), Place(f))
  }

  // ---------------------------------------------------------------- rounding half up

  lemma HalfUp(r: nat, half: nat)
    requires half >= 1
    ensures var k, t := r / (2 * half), r % (2 * half);
      r == k * (2 * half) + t && (r + half) / (2 * half) == if t >= half then k + 1 else k
  {
    var u := 2 * half;
    var k, t := r / u, r % u;
    DivMod(r, u);
    assert (k + 1) * u == k * u + u;
    if t >= half {
      QuotientUnique(r + half, u, k + 1, t - half);
    } else {
      QuotientUnique(r + half, u, k, t + half);
    }
  }

  // The mantissa m against the exact product x, in units of 2 * half * q.
  lemma HalfUpAgainstExact(k: nat, t: nat, half: nat, d: int, q: nat, x: int, m: nat)
    requires half >= 2 && t < 2 * half && q > 0 && 0 <= d && 2 * d < 3 * q
    requires x == (k * (2 * half) + t) * q + d && m == if t >= half then k + 1 else k
    ensures Chosen(x, 2 * half * q, m, 2 * k + 1 - m, Wrong(k, t, half, d, q))
  {
    var u := 2 * half * q;
    var h := half * q;
    assert u == 2 * h by { Associate(2, half, q); }
    assert x == k * u + t * q + d by { TwoTerms(k * (2 * half), t, q); Associate(k, 2 * half, q); }
    TwoTerms(k, 1, u);
    Remainders(t, half, q);
    hide Wrong;
    GapOfChosen(k, t, half, d, q, t * q, h);
  }

  // The same for the gap alone, with p = t * q and h = half * q.
  lemma GapOfChosen(k: nat, t: nat, half: nat, d: int, q: nat, p: int, h: int)
    requires half >= 2 && q > 0 && 0 <= d && 2 * d < 3 * q && 2 * q <= h && p <= 2 * h - q
    requires t > half ==> p >= h + q
    requires t == half ==> p == h
    requires t == half - 1 ==> p == h - q
    requires t < half - 1 ==> p <= h - 2 * q && p >= 0
    ensures t < half ==>
      if Wrong(k, t, half, d, q) then p + d >= h && (p + d == h ==> k % 2 == 1)
      else 0 <= p + d <= h && (p + d == h ==> k % 2 == 0)
    ensures t >= half ==>
      if Wrong(k, t, half, d, q) then p + d == h && k % 2 == 0
      else Abs(p + d - 2 * h) <= h && (Abs(p + d - 2 * h) == h ==> k % 2 == 1)
  {}

  // t places against half a unit and a whole one.
  lemma Remainders(t: nat, half: nat, q: nat)
    requires half >= 2 && t < 2 * half && q > 0
    ensures t * q >= 0 && (t > half ==> t * q >= half * q + q)
    ensures t <= 2 * half - 1 && t * q <= 2 * (half * q) - q
    ensures t == half - 1 ==> t * q == half * q - q
    ensures t < half - 1 ==> t * q <= half * q - 2 * q
    ensures 2 * q <= half * q
  {
    MulMonotone(2, half, q);
    MulMonotone(t, 2 * half - 1, q);
    TwoTerms(2 * half, -1, q);
    Associate(2, half, q);
    TwoTerms(half, 1, q);
    TwoTerms(half, -1, q);
    TwoTerms(half, -2, q);
    if t > half { MulMonotone(half + 1, t, q); }
    if t < half - 1 { MulMonotone(t, half - 2, q); }
  }

  lemma TwoTerms(x: int, y: int, k: int)
    ensures (x + y) * k == x * k + y * k
  {}

  // m units are rightly chosen for x: within half a unit, and even if half-way. Or the neighbour `other` is nearer, or
  // as near and m is odd.
  predicate Chosen(x: int, u: nat, m: nat, other: int, wrongly: bool) {
    && (other == m + 1 || other == m - 1)
    && if wrongly then
         && (if other > m then 2 * (x - m * u) >= u else 2 * (m * u - x) >= u)
         && (2 * Abs(x - m * u) == u ==> m % 2 == 1)
       else
         2 * Abs(x - m * u) <= u && (2 * Abs(x - m * u) == u ==> m % 2 == 0)
  }

  // ---------------------------------------------------------------- the product of the mantissas

  // The rounded mantissa and its neighbour against the exact product.
  lemma MantissaChosen(f: Format, a: nat, b: nat) returns (other: nat)
    requires Splits(f)
    ensures var r, x := HighProduct(f, a, b), Mant(f, a) * Mant(f, b);
      var m, u := ProductMant(f, r), MantUnit(f, r);
      && f.Hidden() <= m <= Pow2(f.p) && f.Hidden() <= other <= Pow2(f.p) && u > 0
      && 2 * x >= Pow2(f.p) * u
      && Chosen(x, u, m, other, Misrounds(f, a, b))
  {
    hide Pow2, HighProduct, Mant, Chosen, Wrong;
    var r, q, x := HighProduct(f, a, b), Place(f), Mant(f, a) * Mant(f, b);
    var m, u := ProductMant(f, r), Unit(f, r);
    SplitSizes(f);
    HighProductBounds(f, a, b);
    ProductMantBounds(f, r);
    ProductAboveUnit(f, a, b);
    UnitScales(f, r);
    HalfOfUnit(f, r);
    HalfUp(r, u / 2);
    var k, t := r / u, r % u;
    MantissaQuotient(f, r);
    other := 2 * k + 1 - m;
    HalfUpAgainstExact(k, t, u / 2, Dropped(f, a, b), q, x, m);
  }

  lemma HalfOfUnit(f: Format, r: nat)
    requires f.p >= 1 && f.g >= 3
    ensures var u := Unit(f, r);
      u % 2 == 0 && u >= 4 && ProductMant(f, r) == (r + u / 2) / u
  {
    hide Pow2, Long;
    EvenPowers(f.g);
  }

  lemma EvenPowers(g: nat)
    requires g >= 3
    ensures Pow2(g) == 2 * Pow2(g - 1) && Pow2(g - 1) == 2 * Pow2(g - 2) && Pow2(g - 2) == 2 * Pow2(g - 3)
  {}

  lemma MantissaQuotient(f: Format, r: nat)
    requires f.p >= 1 && f.g >= 3 && TopBit(f) <= 2 * r < 4 * TopBit(f) && TopBit(f) == f.Hidden() * Pow2(f.g)
    ensures f.Hidden() <= r / Unit(f, r) < 2 * f.Hidden()
  {
    LongIff(f, r);
    HalfUnits(f, r);
    var h, u := f.Hidden(), Unit(f, r);
    hide Pow2, Long, TopBit;
    assert h * Pow2(f.g) == 2 * (h * Pow2(f.g - 1)) by { Associate(h, Pow2(f.g - 1), 2); }
    DivMod(r, u);
    var k := r / u;
    TwoTerms(k, 1, u);
    if k < h { MulMonotone(k + 1, h, u); }
    if k >= 2 * h { MulMonotone(2 * h, k, u); Associate(2, h, u); }
  }

  // ---------------------------------------------------------------- words

  function WithSign(sign: bool, n: int): int { if sign then 0 - n else n }

  lemma ScaledNearestEven(f: Format, x: int, y: nat, k: nat, r: int)
    requires f.p >= 1 && k > 0
    ensures IsNearestEven(f, x * k, y * k, r) <==> IsNearestEven(f, x, y, r)
  {
    hide Pow2, Mant, Abs, Exp, Value;
    if Normal(f, r) {
      ScaledDistance(x, Value(f, r), y, k);
      forall c | Normal(f, c)
        ensures Abs(x * k - Value(f, r) * (y * k)) < Abs(x * k - Value(f, c) * (y * k))
           <==> Abs(x - Value(f, r) * y) < Abs(x - Value(f, c) * y)
        ensures Abs(x * k - Value(f, r) * (y * k)) == Abs(x * k - Value(f, c) * (y * k))
           <==> Abs(x - Value(f, r) * y) == Abs(x - Value(f, c) * y)
      {
        ScaledDistance(x, Value(f, c), y, k);
        MulCancel(Abs(x - Value(f, r) * y), Abs(x - Value(f, c) * y), k);
      }
    }
  }

  lemma ScaledDistance(x: int, v: int, y: int, k: nat)
    ensures Abs(x * k - v * (y * k)) == Abs(x - v * y) * k
  {
    Associate(v, y, k);
    TwoTerms(x, -(v * y), k);
    NegatedProduct(v * y, k);
    AbsScale(x - v * y, k);
  }

  // The distance of a packed word from x / u at exponent e.
  lemma PackedDistance(f: Format, sign: bool, x: nat, u: nat, e: nat, m: nat)
    requires f.p >= 2 && f.Hidden() <= m <= Pow2(f.p) && 1 <= e && (if m == Pow2(f.p) then e + 1 else e) <= f.MaxExp()
    ensures var r := PackRounded(f, sign, e, m);
      Normal(f, r) && Abs(WithSign(sign, x * Pow2(e)) - Value(f, r) * u) == Abs(x - m * u) * Pow2(e)
  {
    hide Pow2, PackRounded, Normal, Mant, Exp, Sign, Magnitude;
    var r := PackRounded(f, sign, e, m);
    PackRoundedFields(f, sign, e, m);
    NegatedProduct(Magnitude(f, r), u);
    ScaleDistance(x, m, u, Pow2(e));
  }

  lemma WronglyPacked(f: Format, sign: bool, x: nat, u: nat, e: nat, m: nat, other: nat)
    requires f.p >= 2 && u > 0 && Chosen(x, u, m, other, true)
    requires f.Hidden() <= m <= Pow2(f.p) && f.Hidden() <= other <= Pow2(f.p) && 1 <= e
    requires (if m == Pow2(f.p) then e + 1 else e) <= f.MaxExp()
    requires (if other == Pow2(f.p) then e + 1 else e) <= f.MaxExp()
    ensures !IsNearestEven(f, WithSign(sign, x * Pow2(e)), u, PackRounded(f, sign, e, m))
  {
    hide Pow2, PackRounded, Normal, Value, WithSign;
    PackedDistance(f, sign, x, u, e, m);
    PackedDistance(f, sign, x, u, e, other);
    PackRoundedFields(f, sign, e, m);
    PackRoundedFields(f, sign, e, other);
    TwoTerms(m, 1, u);
    TwoTerms(m, -1, u);
    MulCancel(m, other, Pow2(e));
    MulCancel(Abs(x - m * u), Abs(x - other * u), Pow2(e));
    assert PackRounded(f, sign, e, other) != PackRounded(f, sign, e, m);
  }

  lemma RightlyPacked(f: Format, sign: bool, x: nat, u: nat, e: nat, m: nat, other: int)
    requires f.p >= 2 && u > 0 && Chosen(x, u, m, other, false) && 2 * x >= Pow2(f.p) * u
    requires f.Hidden() <= m <= Pow2(f.p)
    requires 1 <= (if m == Pow2(f.p) then e + 1 else e) <= f.MaxExp()
    requires e == 0 ==> x >= Pow2(f.p) * u
    ensures IsNearestEven(f, WithSign(sign, x * Pow2(e)), u, PackRounded(f, sign, e, m))
  {
    hide Pow2, Normal, Value, Pack;
    HiddenIsEven(f);
    var h := f.Hidden();
    Associate(2, h, u);
    if e >= 1 {
      RoundedIsNearest(f, sign, x, u, e, m, WithSign(sign, x * Pow2(e)));
    } else {
      NextPower(x, 0);
      PowerZero();
      var y := WithSign(sign, x * Pow2(e));
      Associate(h, 2, u);
      RoundedIsNearest(f, sign, x, u * 2, 1, h, y * 2);
      ScaledNearestEven(f, y, u, 2, PackRounded(f, sign, e, m));
    }
  }

  // ---------------------------------------------------------------- the theorem

  // The exact product in units of the rounded mantissa, at the exponent e of the result.
  lemma ProductScales(f: Format, a: nat, b: nat, e: nat)
    requires Splits(f) && ProductExp(f, a, b, HighProduct(f, a, b)) == e
    ensures var x, b2 := Mant(f, a) * Mant(f, b), Pow2(ExpSum(f, a, b));
      && Product(f, a, b) * Pow2(e) == WithSign(Product(f, a, b) < 0, x * Pow2(e)) * b2
      && f.One() * Pow2(e) == MantUnit(f, HighProduct(f, a, b)) * b2
  {
    hide Pow2, HighProduct, Mant, Exp, Product, MantUnit, ExpSum, ProductExp, WithSign, Abs;
    ProductMagnitude(f, a, b);
    UnitOfResult(f, a, b);
    Exchanged(Product(f, a, b), Mant(f, a) * Mant(f, b), Pow2(ExpSum(f, a, b)), Pow2(e));
  }

  lemma Exchanged(product: int, x: nat, b: nat, e: nat)
    requires Abs(product) == x * b
    ensures product * e == WithSign(product < 0, x * e) * b
  {
    NegatedProduct(x * b, e);
    NegatedProduct(x * e, b);
    Associate(x, b, e);
    Associate(x, e, b);
  }

  // At the ends of the range: how large the mantissas' product is at the smallest and the largest exponent.
  lemma EndsOfRange(f: Format, a: nat, b: nat)
    requires Splits(f) && MultipliesInRange(f, a, b) && ProductExp(f, a, b, HighProduct(f, a, b)) >= 0
    ensures var r, x := HighProduct(f, a, b), Mant(f, a) * Mant(f, b);
      var e, u := ProductExp(f, a, b, r), MantUnit(f, r);
      && (e == 0 ==> x >= Pow2(f.p) * u)
      && (e >= f.MaxExp() ==> x <= (Pow2(f.p) - 1) * u)
  {
    hide Pow2, HighProduct, Mant, Exp, Product, MantUnit, ExpSum, ProductExp;
    var r, x, b2 := HighProduct(f, a, b), Mant(f, a) * Mant(f, b), Pow2(ExpSum(f, a, b));
    var e, u := ProductExp(f, a, b, r), MantUnit(f, r);
    ProductMagnitude(f, a, b);
    UnitOfResult(f, a, b);
    PowerZero();
    HiddenIsEven(f);
    if e == 0 {
      Associate(Pow2(f.p), u, b2);
      MulCancel(x, Pow2(f.p) * u, b2);
    }
    if e >= f.MaxExp() {
      Pow2Monotone(f.MaxExp(), e);
      AtMost(x, b2, Pow2(f.p) - 1, Pow2(f.MaxExp()), Pow2(e), f.One(), u);
    }
  }

  lemma AtMost(x: nat, b: nat, k: nat, max: nat, e: nat, one: nat, u: nat)
    requires b > 0 && x * b <= k * max * one && max <= e && u * b == e * one
    ensures x <= k * u
  {
    MulMonotone(max, e, one);
    Associate(k, max, one);
    MulMonotone(max * one, e * one, k);
    Associate(k, u, b);
    if x > k * u { MulStrict(k * u, x, b); }
  }

  // A wrongly chosen mantissa and its neighbour both fit the exponent field.
  lemma BothFit(x: int, u: nat, m: nat, other: nat, top: nat, e: nat, max: nat)
    requires u > 0 && top > 1 && m <= top && other <= top && Chosen(x, u, m, other, true)
    requires 1 <= (if m == top then e + 1 else e) <= max
    requires e == 0 ==> x >= top * u
    requires e >= max ==> x <= (top - 1) * u
    ensures 1 <= e && (if other == top then e + 1 else e) <= max
  {}

  // A product is round-to-nearest-even exactly when no even half-way case is rounded up and the dropped part would not
  // have decided otherwise.
  lemma RoundingIsExact(f: Format, a: nat, b: nat)
    requires Splits(f) && MultipliesInRange(f, a, b)
    ensures IsNearestEven(f, Product(f, a, b), f.One(), MulWords(f, a, b)) <==> !Misrounds(f, a, b)
  {
    hide Pow2, HighProduct, ProductMant, Mant, Exp, Product, Sign, MulWords, PackRounded, Magnitude, MantUnit, ExpSum,
      Normal, InRange, Value, Misrounds, IsNearestEven, Chosen, Long, WithSign, ProductExp;
    var r, w := HighProduct(f, a, b), MulWords(f, a, b);
    var m, u, x := ProductMant(f, r), MantUnit(f, r), Mant(f, a) * Mant(f, b);
    var sign := Product(f, a, b) < 0;
    MulIsPacked(f, a, b);
    var e: nat := ProductExp(f, a, b, r);
    var other := MantissaChosen(f, a, b);
    ProductScales(f, a, b, e);
    ScaledNearestEven(f, Product(f, a, b), f.One(), Pow2(e), w);
    ScaledNearestEven(f, WithSign(sign, x * Pow2(e)), u, Pow2(ExpSum(f, a, b)), w);
    EndsOfRange(f, a, b);
    if Misrounds(f, a, b) {
      HiddenIsEven(f);
      BothFit(x, u, m, other, Pow2(f.p), e, f.MaxExp());
      WronglyPacked(f, sign, x, u, e, m, other);
    } else {
      RightlyPacked(f, sign, x, u, e, m, other);
    }
  }

  // ---------------------------------------------------------------- misrounded pairs

  // Between one and two, any mantissas give an in-range product.
  lemma UnitWord(f: Format, m: nat) returns (w: nat)
    requires Splits(f) && f.Hidden() <= m < Pow2(f.p)
    ensures Normal(f, w) && !Sign(f, w) && Exp(f, w) == f.Excess() + 1 && Mant(f, w) == m
  {
    w := Pack(f, false, f.Excess() + 1, m - f.Hidden());
    ExcessInField(f);
    PackFields(f, false, f.Excess() + 1, m);
  }

  lemma ExcessInField(f: Format)
    ensures f.MaxExp() == 2 * f.Excess() + 2
    ensures f.g >= 1 ==> f.Excess() >= 1
  {
    assert Pow2(2) == 4;
    if f.g >= 1 { Pow2Monotone(2, f.g + 1); }
  }

  lemma UnitProductInRange(f: Format, a: nat, b: nat)
    requires Splits(f) && Normal(f, a) && Normal(f, b)
    requires Exp(f, a) == f.Excess() + 1 && Exp(f, b) == f.Excess() + 1
    ensures MultipliesInRange(f, a, b)
  {
    ExcessInField(f);
    hide Pow2, Mant, Exp, Product, Normal, Format.Excess, Format.MaxExp;
    var k := f.Excess();
    ProductMagnitude(f, a, b);
    MantProductBounds(f, a, b);
    assert ExpSum(f, a, b) == k + 1 + (k + 1) == f.MaxExp();
    HiddenIsEven(f);
    PowerZero();
    Pow2Sum(f.p, k);
    Pow2Sum(k + 1, k + 1);
    NextPower(1, k);
    Pow2Monotone(1, k);
    UnitRange(Mant(f, a) * Mant(f, b), f.Hidden(), Pow2(k));
  }

  lemma UnitRange(x: nat, h: nat, k: nat)
    requires h >= 1 && h * h <= x < 2 * h * (2 * h) && k >= 2
    ensures var max, one := 2 * k * (2 * k), 2 * h * k;
      h * 2 * one <= x * max <= (2 * h - 1) * max * one
  {
    var max, one := 2 * k * (2 * k), 2 * h * k;
    var y := h * h * k;
    assert h * 2 * one == 4 * y by { Associate(h, 2, one); Associate(2, h, k); Associate(h, h, k); Double(h, h * k); }
    assert h * h * max == 4 * (y * k) by { Associate(y, k, 1); FourTimes(h * h, k); }
    MulMonotone(1, k, y);
    MulMonotone(h * h, x, max);
    LargestFits(x, h, k);
    MulMonotone(x, (2 * h - 1) * one, max);
    assert (2 * h - 1) * one * max == (2 * h - 1) * max * one by {
      Associate(2 * h - 1, one, max);
      Associate(2 * h - 1, max, one);
    }
  }

  lemma Double(h: nat, z: nat)
    ensures h * (2 * (2 * z)) == 4 * (h * z)
  {}

  lemma FourTimes(z: nat, k: nat)
    ensures z * (2 * k * (2 * k)) == 4 * (z * k * k)
  {
    assert 2 * k * (2 * k) == 4 * (k * k);
    Associate(z, k, k);
  }

  lemma LargestFits(x: nat, h: nat, k: nat)
    requires h >= 1 && x < 2 * h * (2 * h) && k >= 2
    ensures x <= (2 * h - 1) * (2 * h * k)
  {
    var t := 2 * h;
    MulMonotone(2, k, (t - 1) * t);
    Associate(t - 1, t, k);
    assert (t - 1) * t == t * t - t;
    MulMonotone(2, t, t);
  }

  // In each format: an even half-way product that is rounded up, and one past half-way that is not, because what
  // carries it past is dropped.
  lemma MisroundedPairs(f: Format) returns (a: nat, b: nat, c: nat, d: nat)
    requires Splits(f)
    ensures MultipliesInRange(f, a, b) && Dropped(f, a, b) == 0
    ensures !IsNearestEven(f, Product(f, a, b), f.One(), MulWords(f, a, b))
    ensures MultipliesInRange(f, c, d) && Dropped(f, c, d) > Place(f)
    ensures !IsNearestEven(f, Product(f, c, d), f.One(), MulWords(f, c, d))
  {
    hide Pow2, Mant, Exp, Product, Normal, InRange, IsNearestEven, MulWords, HighProduct, Unit;
    SplitSizes(f);
    var m1, m2, m3, m4 := TieMantissas(f).0, TieMantissas(f).1, PastMantissas(f).0, PastMantissas(f).1;
    a := UnitWord(f, m1);
    b := UnitWord(f, m2);
    c := UnitWord(f, m3);
    d := UnitWord(f, m4);
    UnitProductInRange(f, a, b);
    UnitProductInRange(f, c, d);
    if f == SINGLE { SinglePairs(a, b, c, d); } else { DoublePairs(a, b, c, d); }
    RoundingIsExact(f, a, b);
    RoundingIsExact(f, c, d);
  }

  function TieMantissas(f: Format): (nat, nat) {
    if f == SINGLE then (0xC0_0000, 0x80_0003) else (0x18_0000_0000_0000, 0x10_0000_0000_0003)
  }

  function PastMantissas(f: Format): (nat, nat) {
    if f == SINGLE then (0xA0_2CC8, 0xB6_4E43) else (0x11_454A_25D8_FF21, 0x1C_98E7_4594_3CB3)
  }

  // Mantissas m1 and m2, whose high product r is k units and t places, with a known rest.
  lemma MisroundsFor(f: Format, a: nat, b: nat, m1: nat, m2: nat, r: nat, k: nat, t: nat, u: nat, q: nat)
    requires Splits(f) && Mant(f, a) == m1 && Mant(f, b) == m2
    requires q == Place(f) && r == PartialProducts(Pow2(LowBits(f)), m1, m2) / 4
    requires u == Unit(f, r) && r == k * u + t && t < u
    requires Wrong(k, t, u / 2, m1 * m2 - r * q, q)
    ensures Misrounds(f, a, b) && Dropped(f, a, b) == m1 * m2 - r * q
  {
    hide Pow2, Mant, PartialProducts, Unit, Wrong;
    QuotientUnique(r, u, k, t);
  }

  lemma ShortUnits(f: Format, r: nat)
    requires Splits(f) && r < TopBit(f)
    ensures Unit(f, r) == if f == SINGLE then 32 else 256
  {
    LongIff(f, r);
    SmallPowers();
  }

  lemma SinglePairs(a: nat, b: nat, c: nat, d: nat)
    requires Mant(SINGLE, a) == 0xC0_0000 && Mant(SINGLE, b) == 0x80_0003
    requires Mant(SINGLE, c) == 0xA0_2CC8 && Mant(SINGLE, d) == 0xB6_4E43
    ensures Misrounds(SINGLE, a, b) && Dropped(SINGLE, a, b) == 0
    ensures Misrounds(SINGLE, c, d) && Dropped(SINGLE, c, d) > Place(SINGLE)
  {
    hide Pow2, Mant, Misrounds;
    SplitSizes(SINGLE);
    SmallPowers();
    ShortUnits(SINGLE, 0x1800_0090);
    ShortUnits(SINGLE, 0x1C84_336F);
    MisroundsFor(SINGLE, a, b, 0xC0_0000, 0x80_0003, 0x1800_0090, 0xC0_0004, 16, 32, 0x4_0000);
    MisroundsFor(SINGLE, c, d, 0xA0_2CC8, 0xB6_4E43, 0x1C84_336F, 0xE4_219B, 15, 32, 0x4_0000);
  }

  lemma DoublePairs(a: nat, b: nat, c: nat, d: nat)
    requires Mant(DOUBLE, a) == 0x18_0000_0000_0000 && Mant(DOUBLE, b) == 0x10_0000_0000_0003
    requires Mant(DOUBLE, c) == 0x11_454A_25D8_FF21 && Mant(DOUBLE, d) == 0x1C_98E7_4594_3CB3
    ensures Misrounds(DOUBLE, a, b) && Dropped(DOUBLE, a, b) == 0
    ensures Misrounds(DOUBLE, c, d) && Dropped(DOUBLE, c, d) > Place(DOUBLE)
  {
    hide Pow2, Mant, Misrounds;
    SplitSizes(DOUBLE);
    SmallPowers();
    ShortUnits(DOUBLE, 0x1800_0000_0000_0480);
    ShortUnits(DOUBLE, 0x1EDE_4DA6_1CA0_947F);
    MisroundsFor(DOUBLE, a, b, 0x18_0000_0000_0000, 0x10_0000_0000_0003, 0x1800_0000_0000_0480,
                 0x18_0000_0000_0004, 128, 256, 0x1000_0000_0000);
    MisroundsFor(DOUBLE, c, d, 0x11_454A_25D8_FF21, 0x1C_98E7_4594_3CB3, 0x1EDE_4DA6_1CA0_947F,
                 0x1E_DE4D_A61C_A094, 127, 256, 0x1000_0000_0000);
  }
}

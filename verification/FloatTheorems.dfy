/**
 What the six single and double routines guarantee, with the numbers filled in, and where addition stops
 being correctly rounded.
 */
module FloatTheorems {
  import opened PowersOfTwo
  import opened FloatFormat
  import opened FloatRounding
  import opened FloatAddition
  import opened FloatAdditionError
  import opened FloatAdditionExact
  import opened FloatAdditionLimits
  import M = FloatMultiplication
  import opened FloatProductError
  import P = FloatProductExact

  lemma SmallPowersOfTwo()
    ensures Pow2(5) == 32 && Pow2(6) == 64 && Pow2(8) == 256 && Pow2(9) == 512
  {}

  // __addsf3: within 17/32 units in the last place always, and round-to-nearest-even exactly when the sum does not
  // end in a false tie, which it cannot when the exponents differ by at most 5.
  lemma SingleSum(a: nat, b: nat)
    requires AddsInRange(SINGLE, a, b)
    ensures var r := AddWords(SINGLE, a, b);
      && Normal(SINGLE, r)
      && 32 * Abs(ExactSum(SINGLE, a, b) - Value(SINGLE, r)) < 17 * Pow2(Exp(SINGLE, r))
      && (IsNearestEven(SINGLE, ExactSum(SINGLE, a, b), 1, r) <==> !Misrounds(SINGLE, a, b))
      && (-5 <= Exp(SINGLE, a) - Exp(SINGLE, b) <= 5 ==> IsNearestEven(SINGLE, ExactSum(SINGLE, a, b), 1, r))
  {
    hide Pow2, AddWords, Normal, InRange, ExactSum, Value, IsNearestEven, Exp, Misrounds;
    RoundingIsExact(SINGLE, a, b);
    SmallPowersOfTwo();
    SumError(SINGLE, a, b);
    if -5 <= Exp(SINGLE, a) - Exp(SINGLE, b) <= 5 { CloseSumIsNearestEven(SINGLE, a, b); }
  }

  // __adddf3: the same with 8 places and 129/256.
  lemma DoubleSum(a: nat, b: nat)
    requires AddsInRange(DOUBLE, a, b)
    ensures var r := AddWords(DOUBLE, a, b);
      && Normal(DOUBLE, r)
      && 256 * Abs(ExactSum(DOUBLE, a, b) - Value(DOUBLE, r)) < 129 * Pow2(Exp(DOUBLE, r))
      && (IsNearestEven(DOUBLE, ExactSum(DOUBLE, a, b), 1, r) <==> !Misrounds(DOUBLE, a, b))
      && (-8 <= Exp(DOUBLE, a) - Exp(DOUBLE, b) <= 8 ==> IsNearestEven(DOUBLE, ExactSum(DOUBLE, a, b), 1, r))
  {
    hide Pow2, AddWords, Normal, InRange, ExactSum, Value, IsNearestEven, Exp, Misrounds;
    RoundingIsExact(DOUBLE, a, b);
    SmallPowersOfTwo();
    SumError(DOUBLE, a, b);
    if -8 <= Exp(DOUBLE, a) - Exp(DOUBLE, b) <= 8 { CloseSumIsNearestEven(DOUBLE, a, b); }
  }

  // By exponents alone: all single sums of words d apart are correctly rounded if and only if d <= 5 or d >= 26.
  lemma SingleExponents(d: nat)
    ensures RoundsAllApart(SINGLE, d) <==> d <= 5 || d >= 26
  {
    hide Pow2, RoundsAllApart;
    RoomForBoth();
    ExponentsDecide(SINGLE, d);
  }

  // All double sums of words d apart are correctly rounded if and only if d <= 8 or d >= 55.
  lemma DoubleExponents(d: nat)
    ensures RoundsAllApart(DOUBLE, d) <==> d <= 8 || d >= 55
  {
    hide Pow2, RoundsAllApart;
    RoomForBoth();
    ExponentsDecide(DOUBLE, d);
  }

  lemma RoomForBoth()
    ensures Roomy(SINGLE) && Roomy(DOUBLE)
  {
    assert Pow2(8) == 256 && Pow2(11) == 2048;
  }

  // Opposite operands cancel to the zero word.
  lemma OppositesCancel(f: Format, a: nat, b: nat)
    requires f.p >= 2 && f.g >= 1 && Normal(f, a) && Normal(f, b) && ExactSum(f, a, b) == 0
    ensures AddWords(f, a, b) == 0
  {
    hide Pow2, Value, Sign, Mant;
    MantBounds(f, a);
    MantBounds(f, b);
    NormalIsNonZero(f, a);
    NormalIsNonZero(f, b);
    assert Magnitude(f, a) == Magnitude(f, b) by { SameMagnitude(f, a, b); }
    if Exp(f, a) < Exp(f, b) { LargerExponentIsLarger(f.Hidden(), Mant(f, a), Exp(f, a), Mant(f, b), Exp(f, b)); }
    if Exp(f, a) > Exp(f, b) { LargerExponentIsLarger(f.Hidden(), Mant(f, b), Exp(f, b), Mant(f, a), Exp(f, a)); }
    SumAligned(f, a, b);
    MulCancel(AlignedSum(f, a, b), 0, Pow2(Exp(f, a)));
  }

  lemma SameMagnitude(f: Format, a: nat, b: nat)
    requires f.p >= 1 && ExactSum(f, a, b) == 0
    ensures Magnitude(f, a) == Magnitude(f, b)
  {
    hide Pow2;
  }

  // __mulsf3 is within 35/64, __muldf3 within 259/512 units in the last place, and round-to-nearest-even unless an even
  // half-way case is rounded up or the dropped part of the product would have decided otherwise.
  lemma SingleProduct(a: nat, b: nat)
    requires MultipliesInRange(SINGLE, a, b)
    ensures var r := M.MulWords(SINGLE, a, b);
      && Normal(SINGLE, r)
      && 64 * Abs(Product(SINGLE, a, b) - Value(SINGLE, r) * SINGLE.One())
        < 35 * (Pow2(Exp(SINGLE, r)) * SINGLE.One())
      && (IsNearestEven(SINGLE, Product(SINGLE, a, b), SINGLE.One(), r) <==> !P.Misrounds(SINGLE, a, b))
  {
    hide Pow2, M.MulWords, Normal, InRange, Product, Value, Exp, IsNearestEven, P.Misrounds;
    P.RoundingIsExact(SINGLE, a, b);
    SmallPowersOfTwo();
    ProductError(SINGLE, a, b);
  }

  lemma DoubleProduct(a: nat, b: nat)
    requires MultipliesInRange(DOUBLE, a, b)
    ensures var r := M.MulWords(DOUBLE, a, b);
      && Normal(DOUBLE, r)
      && 512 * Abs(Product(DOUBLE, a, b) - Value(DOUBLE, r) * DOUBLE.One())
        < 259 * (Pow2(Exp(DOUBLE, r)) * DOUBLE.One())
      && (IsNearestEven(DOUBLE, Product(DOUBLE, a, b), DOUBLE.One(), r) <==> !P.Misrounds(DOUBLE, a, b))
  {
    hide Pow2, M.MulWords, Normal, InRange, Product, Value, Exp, IsNearestEven, P.Misrounds;
    P.RoundingIsExact(DOUBLE, a, b);
    SmallPowersOfTwo();
    ProductError(DOUBLE, a, b);
  }

  // ---------------------------------------------------------------- where rounding goes wrong

  // Exponent fields 7 and 1, mantissas 0xFE0001 and 0x800001: the lost guard bit turns a sum above the
  // half-way point into a tie.
  const LARGE_ADDEND: nat := 0x03FE_0001
  const SMALL_ADDEND: nat := 0x0080_0001
  const COMPUTED_SUM: nat := 0x0400_0000
  const NEAREST_SUM: nat := 0x0400_0001

  lemma ExactPowers()
    ensures Pow2(0) == 1 && Pow2(1) == 2 && Pow2(5) == 32 && Pow2(6) == 64 && Pow2(7) == 128 && Pow2(8) == 256
    ensures Pow2(23) == 0x80_0000 && Pow2(24) == 0x100_0000 && Pow2(29) == 0x2000_0000 && Pow2(30) == 0x4000_0000
    ensures Pow2(31) == 0x8000_0000 && Pow2(32) == 0x1_0000_0000
  {
    Pow2Sum(8, 8);
    Pow2Sum(16, 7);
    Pow2Sum(23, 6);
  }

  // With exponents six apart, __addsf3 is no longer correctly rounded.
  lemma SixApartIsNotNearest()
    ensures AddsInRange(SINGLE, LARGE_ADDEND, SMALL_ADDEND)
    ensures Exp(SINGLE, LARGE_ADDEND) == Exp(SINGLE, SMALL_ADDEND) + 6
    ensures AddWords(SINGLE, LARGE_ADDEND, SMALL_ADDEND) == COMPUTED_SUM
    ensures Normal(SINGLE, NEAREST_SUM)
    ensures var x := ExactSum(SINGLE, LARGE_ADDEND, SMALL_ADDEND);
      Abs(x - Value(SINGLE, NEAREST_SUM)) < Abs(x - Value(SINGLE, COMPUTED_SUM))
  {
    hide Pow2;
    ExactPowers();
    Fields();
    var x := ExactSum(SINGLE, LARGE_ADDEND, SMALL_ADDEND);
    assert x == 0x8000_0082;
    LargestIsLarge();
    Pipeline();
  }

  lemma Fields()
    ensures !Sign(SINGLE, LARGE_ADDEND) && Exp(SINGLE, LARGE_ADDEND) == 7 && Mant(SINGLE, LARGE_ADDEND) == 0xFE_0001
    ensures !Sign(SINGLE, SMALL_ADDEND) && Exp(SINGLE, SMALL_ADDEND) == 1 && Mant(SINGLE, SMALL_ADDEND) == 0x80_0001
    ensures !Sign(SINGLE, COMPUTED_SUM) && Exp(SINGLE, COMPUTED_SUM) == 8 && Mant(SINGLE, COMPUTED_SUM) == 0x80_0000
    ensures !Sign(SINGLE, NEAREST_SUM) && Exp(SINGLE, NEAREST_SUM) == 8 && Mant(SINGLE, NEAREST_SUM) == 0x80_0001
  {
    hide Pow2;
    ExactPowers();
  }

  lemma LargestIsLarge()
    ensures (Pow2(24) - 1) * Pow2(SINGLE.MaxExp()) * 1 >= 0x8000_0082
  {
    hide Pow2;
    ExactPowers();
    Pow2Monotone(8, 254);
    MulMonotone(256, Pow2(254), 0xFF_FFFF);
  }

  lemma Pipeline()
    ensures AddWords(SINGLE, LARGE_ADDEND, SMALL_ADDEND) == COMPUTED_SUM
  {
    hide Pow2;
    ExactPowers();
    Fields();
    var s := AlignedSum(SINGLE, LARGE_ADDEND, SMALL_ADDEND);
    assert s == 0x4000_0041;
    var w := Wide(s, 7);
    assert NormalizeUp(SINGLE, w) == w;
    assert NormalizeDown(SINGLE, w) == Wide(0x2000_0020, 8);
    assert RoundUp(SINGLE, 0x2000_0020) == 0x2000_003F;
    assert NormalizeDown(SINGLE, Wide(0x2000_003F, 8)) == Wide(0x2000_003F, 8);
    assert Finish(SINGLE, false, Wide(0x2000_0020, 8)) == Pack(SINGLE, false, 8, 0);
  }
}

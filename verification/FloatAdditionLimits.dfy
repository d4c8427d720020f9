/**
 Which exponent differences are safe for __addsf3 and __adddf3: the ones below the number of guard bits and the ones
 for which the larger operand is returned. For every difference between, two words that are added wrongly.
 */
module FloatAdditionLimits {
  import opened PowersOfTwo
  import opened FloatFormat
  import opened FloatRounding
  import opened FloatAddition
  import opened FloatAdditionError
  import opened FloatAdditionExact

  // Every word pair whose exponents are d apart, in either order, is added correctly.
  ghost predicate Apart(f: Format, a: nat, b: nat, d: nat)
    requires f.p >= 1
  {
    Exp(f, a) == Exp(f, b) + d || Exp(f, b) == Exp(f, a) + d
  }

  ghost predicate RoundsAllApart(f: Format, d: nat)
    requires f.p >= 1 && f.g >= 1
  {
    forall a: nat, b: nat :: AddsInRange(f, a, b) && Apart(f, a, b, d) ==>
      IsNearestEven(f, ExactSum(f, a, b), 1, AddWords(f, a, b))
  }

  // Room for the witnesses in the mantissa and in the exponent field.
  predicate Roomy(f: Format) {
    3 <= f.g <= f.p - 2 && f.p + 4 <= f.MaxExp()
  }

  // ---------------------------------------------------------------- the witnesses

  function LargeMant(f: Format, d: nat): int
    requires f.p >= 1 && f.g < f.p
  {
    if d == f.g then 2 * f.Hidden() + 1 - Pow2(f.p - 1 - f.g)
    else if d < f.p then f.Hidden() + Pow2(f.p - 1 - d)
    else if d == f.p then f.Hidden()
    else f.Hidden() + 1
  }

  function SmallMant(f: Format, d: nat): int
    requires f.p >= 1 && d >= 1
  {
    if d == f.g || d == f.p then f.Hidden() + 1
    else if d < f.p then f.Hidden() + Pow2(d - 1) + 1
    else 2 * f.Hidden() - 1
  }

  predicate Negative(f: Format, d: nat) { d == f.p + 1 }

  // The aligned sum of two such numbers, and the bits that are lost.
  ghost predicate Aligned(f: Format, d: nat, ma: int, mb: int, s: int, lost: int) {
    var a, b :=
      if Negative(f, d) then -(ma * Pow2(f.g)) else ma * Pow2(f.g),
      if Negative(f, d) then -(mb * Pow2(f.g)) else mb * Pow2(f.g);
    s == a + b / Pow2(d) && lost == b % Pow2(d)
  }

  lemma SizesOf(f: Format)
    requires Roomy(f)
    ensures var h, g := f.Hidden(), Pow2(f.g);
      && h % 2 == 0 && h >= 2 * g && g >= 8 && h == Pow2(f.p - 1 - f.g) * g
      && Pow2(f.p) == 2 * h && Pow2(f.p + 1) == 4 * h && Pow2(f.p + f.g) == 2 * (h * g)
      && Pow2(f.p - 1 - f.g) >= 2 && 2 * Pow2(f.p - 1 - f.g) <= h
  {
    Pow2Sum(f.p - 1 - f.g, f.g);
    HiddenIsEven(f);
    TopFacts(f);
    assert Pow2(f.p + 1) == 2 * Pow2(f.p);
    hide Pow2;
    Pow2Zero();
    EightUnits(f.g);
    Pow2Monotone(1, f.p - 1 - f.g);
    MulMonotone(2, Pow2(f.p - 1 - f.g), Pow2(f.g));
    MulMonotone(2, Pow2(f.g), Pow2(f.p - 1 - f.g));
  }

  lemma EvenHidden(f: Format)
    requires Roomy(f)
    ensures f.Hidden() % 2 == 0 && f.Hidden() >= 16 && Pow2(f.g) >= 8
  {
    SizesOf(f);
  }

  lemma MantsFit(f: Format, d: nat)
    requires Roomy(f) && f.g <= d <= f.p + 1
    ensures f.Hidden() <= LargeMant(f, d) < 2 * f.Hidden() && f.Hidden() <= SmallMant(f, d) < 2 * f.Hidden()
  {
    hide Pow2;
    SizesOf(f);
    if f.g < d < f.p {
      Pow2Increasing(f.p - 1 - d, f.p - 1);
      Pow2Increasing(d - 1, f.p - 1);
      Pow2Monotone(1, f.p - 1);
      Pow2Monotone(d, f.p - 1);
    }
  }

  // Exponents g apart: the sum carries, and the bit halved away was the only one below the apparent tie.
  lemma CarryWitness(f: Format)
    requires Roomy(f)
    ensures var h, g := f.Hidden(), Pow2(f.g);
      Aligned(f, f.g, LargeMant(f, f.g), SmallMant(f, f.g), 2 * (h * g) + g + 1, 0)
  {
    hide Pow2;
    SizesOf(f);
    var h: int, g: int, n: int := f.Hidden(), Pow2(f.g), Pow2(f.p - 1 - f.g);
    QuotientUnique((h + 1) * g, g, h + 1, 0);
    Distribute(2 * h + 1, -n, g);
    Distribute(2 * h, 1, g);
    Associate(2, h, g);
    NegatedProduct(n, g);
  }

  // In between: the guard bits of the small operand are a one and zeros, with a one among the lost bits.
  lemma MiddleWitness(f: Format, d: nat)
    requires Roomy(f) && f.g < d < f.p
    ensures var h, g, n := f.Hidden(), Pow2(f.g), Pow2(f.p - 1 - d);
      && Aligned(f, d, LargeMant(f, d), SmallMant(f, d), (h + 2 * n) * g + Pow2(f.g - 1), g)
      && h + 2 * n < 2 * h
  {
    hide Pow2;
    SizesOf(f);
    var h, g, n, half := f.Hidden(), Pow2(f.g), Pow2(f.p - 1 - d), Pow2(f.g - 1);
    HalfUnit(f);
    Pow2Increasing(f.g, d);
    Pow2Increasing(f.p - 1 - d, f.p - 1 - f.g);
    Pow2Sum(f.p - 1 - d, d);
    TwoFactors(1, d - 1, f.g, d - 1 + f.g);
    TwoFactors(1, f.g - 1, d, d - 1 + f.g);
    MiddleQuotient(h, g, n, half, Pow2(d), Pow2(d - 1));
  }

  lemma MiddleQuotient(h: nat, g: nat, n: nat, half: nat, w: nat, v: nat)
    requires h == n * w && v * g == half * w && g < w && g == 2 * half
    ensures var b := (h + v + 1) * g;
      b / w == n * g + half && b % w == g
    ensures (h + n) * g + (n * g + half) == (h + 2 * n) * g + half
  {
    Distribute(h + v, 1, g);
    Distribute(h, v, g);
    Associate(n, w, g);
    Associate(n, g, w);
    Distribute(n * g, half, w);
    QuotientUnique((h + v + 1) * g, w, n * g + half, g);
    Distribute(h, n, g);
    Distribute(h + n, n, g);
  }

  // p apart: as in between, the small operand's leading one being the guard bit.
  lemma TopWitness(f: Format)
    requires Roomy(f)
    ensures var h, g := f.Hidden(), Pow2(f.g);
      Aligned(f, f.p, LargeMant(f, f.p), SmallMant(f, f.p), h * g + Pow2(f.g - 1), g)
  {
    hide Pow2;
    SizesOf(f);
    HalfUnit(f);
    var h, g, half := f.Hidden(), Pow2(f.g), Pow2(f.g - 1);
    Distribute(h, 1, g);
    Associate(h, 2, half);
    Associate(2, h, half);
    assert half * (2 * h) == h * g;
    QuotientUnique((h + 1) * g, 2 * h, half, g);
  }

  // p + 1 apart, both negative: the small operand rounds up to half a unit in the shift.
  lemma NegativeWitness(f: Format)
    requires Roomy(f)
    ensures var h, g := f.Hidden(), Pow2(f.g);
      Aligned(f, f.p + 1, LargeMant(f, f.p + 1), SmallMant(f, f.p + 1), -((h + 1) * g + Pow2(f.g - 1)), g)
  {
    hide Pow2;
    SizesOf(f);
    HalfUnit(f);
    var h: int, g: int, half: int := f.Hidden(), Pow2(f.g), Pow2(f.g - 1);
    Distribute(2 * h, -1, g);
    NegatedProduct(half, 4 * h);
    assert 2 * h * g == half * (4 * h);
    QuotientUnique(-((2 * h - 1) * g), 4 * h, -half, g);
  }

  // ---------------------------------------------------------------- as words

  function Witness(f: Format, sign: bool, e: nat, m: int): nat
    requires f.p >= 1 && m >= f.Hidden()
  {
    Pack(f, sign, e, m - f.Hidden())
  }

  lemma WitnessFields(f: Format, d: nat)
    requires Roomy(f) && f.g <= d <= f.p + 1
    ensures LargeMant(f, d) >= f.Hidden() && SmallMant(f, d) >= f.Hidden()
    ensures var a := Witness(f, Negative(f, d), 1 + d, LargeMant(f, d));
      Normal(f, a) && Exp(f, a) == 1 + d && Mant(f, a) == LargeMant(f, d) && Sign(f, a) == Negative(f, d)
    ensures var b := Witness(f, Negative(f, d), 1, SmallMant(f, d));
      Normal(f, b) && Exp(f, b) == 1 && Mant(f, b) == SmallMant(f, d) && Sign(f, b) == Negative(f, d)
  {
    hide Pow2, LargeMant, SmallMant;
    MantsFit(f, d);
    SizesOf(f);
    PackFields(f, Negative(f, d), 1 + d, LargeMant(f, d));
    PackFields(f, Negative(f, d), 1, SmallMant(f, d));
  }

  lemma AlignedWords(f: Format, a: nat, b: nat, d: nat, s: int, lost: int)
    requires Roomy(f) && f.g <= d && Exp(f, a) == 1 + d && Exp(f, b) == 1
    requires Sign(f, a) == Negative(f, d) && Sign(f, b) == Negative(f, d)
    requires Aligned(f, d, Mant(f, a), Mant(f, b), s, lost)
    ensures AlignedSum(f, a, b) == s && Lost(f, a, b) == lost
  {
    hide Pow2, Exp, Mant, Sign;
  }

  // A sum of v units that needs no shifting and ends in a half is an apparent tie.
  lemma TieInPlace(f: Format, a: nat, b: nat, q: nat)
    requires Roomy(f) && Exp(f, a) >= Exp(f, b) && f.Hidden() <= q < 2 * f.Hidden() && Lost(f, a, b) > 0
    requires Abs(AlignedSum(f, a, b)) == q * Pow2(f.g) + Pow2(f.g - 1)
    requires if AlignedSum(f, a, b) > 0 then q % 2 == 0 else q % 2 == 1
    ensures FalseTie(f, a, b)
  {
    hide Pow2, Exp, Lost, AlignedSum;
    SizesOf(f);
    HalfUnit(f);
    TopFacts(f);
    var h, g, half := f.Hidden(), Pow2(f.g), Pow2(f.g - 1);
    MulMonotone(h, q, g);
    MulMonotone(q + 1, 2 * h, g);
    Distribute(q, 1, g);
    Associate(2, h, g);
    QuotientUnique(q * g + half, g, q, half);
  }

  // A carry whose halved-away bit was the only one below the half.
  lemma TieAfterCarry(f: Format, a: nat, b: nat)
    requires Roomy(f) && Exp(f, a) >= Exp(f, b)
    requires AlignedSum(f, a, b) == 2 * (f.Hidden() * Pow2(f.g)) + Pow2(f.g) + 1
    ensures FalseTie(f, a, b)
  {
    hide Pow2, Exp, Lost, AlignedSum;
    SizesOf(f);
    HalfUnit(f);
    TopFacts(f);
    var h, g, half := f.Hidden(), Pow2(f.g), Pow2(f.g - 1);
    QuotientUnique(h * g + half, g, h, half);
  }

  lemma SameSignInRange(f: Format, a: nat, b: nat, d: nat)
    requires Roomy(f) && Normal(f, a) && Normal(f, b) && Sign(f, a) == Sign(f, b)
    requires Exp(f, a) == 1 + d && Exp(f, b) == 1 && d <= f.p + 1
    ensures AddsInRange(f, a, b)
  {
    hide Pow2, Normal, Exp, Mant, Sign;
    Pow2Zero();
    MantBounds(f, a);
    MantBounds(f, b);
    Pow2Monotone(1, 1 + d);
    NextPower(1, 1 + d);
    NextPower(1, 2 + d);
    Pow2Monotone(3 + d, f.MaxExp());
    SumBounds(f.Hidden(), Mant(f, a), Mant(f, b), Pow2(1 + d), Pow2(f.MaxExp()));
  }

  lemma SumBounds(h: nat, ma: nat, mb: nat, u: nat, max: nat)
    requires 1 <= h <= ma < 2 * h && mb < 2 * h && 2 <= u && 4 * u <= max
    ensures h * 2 <= ma * u + mb * 2 <= (2 * h - 1) * max
  {
    MulMonotone(h, ma, u);
    MulMonotone(2, u, h);
    MulMonotone(ma, 2 * h, u);
    MulMonotone(mb, 2 * h, 2);
    MulMonotone(2, u, 2 * h);
    Associate(2, h, u);
    MulMonotone(4 * u, max, h);
    assert h * (4 * u) == 4 * (h * u);
    MulMonotone(h, 2 * h - 1, max);
  }

  ghost predicate IsWitness(f: Format, d: nat, a: nat, b: nat) {
    && Roomy(f) && f.g <= d <= f.p + 1 && Exp(f, a) == 1 + d && Exp(f, b) == 1
    && Sign(f, a) == Negative(f, d) && Sign(f, b) == Negative(f, d)
    && Mant(f, a) == LargeMant(f, d) && Mant(f, b) == SmallMant(f, d)
  }

  lemma WitnessIsFalseTie(f: Format, d: nat, a: nat, b: nat)
    requires IsWitness(f, d, a, b)
    ensures FalseTie(f, a, b)
  {
    hide *;
    WitnessIs(f, d, a, b);
    if d == f.g {
      CarryTie(f, a, b);
    } else if d < f.p {
      MiddleTie(f, d, a, b);
    } else if d == f.p {
      TopTie(f, a, b);
    } else {
      NegativeTie(f, a, b);
    }
  }

  lemma WitnessIs(f: Format, d: nat, a: nat, b: nat)
    requires IsWitness(f, d, a, b)
    ensures Roomy(f) && f.g <= d <= f.p + 1 && f.g < f.p && Exp(f, a) >= Exp(f, b)
  {}

  lemma CarryTie(f: Format, a: nat, b: nat)
    requires IsWitness(f, f.g, a, b)
    ensures FalseTie(f, a, b)
  {
    hide Pow2, LargeMant, SmallMant, Aligned, AlignedSum, Lost, FalseTie, Mant, Sign, Exp;
    CarryWitness(f);
    AlignedWords(f, a, b, f.g, 2 * (f.Hidden() * Pow2(f.g)) + Pow2(f.g) + 1, 0);
    TieAfterCarry(f, a, b);
  }

  lemma MiddleTie(f: Format, d: nat, a: nat, b: nat)
    requires IsWitness(f, d, a, b) && f.g < d < f.p
    ensures FalseTie(f, a, b)
  {
    hide Pow2, LargeMant, SmallMant, Aligned, AlignedSum, Lost, FalseTie, Mant, Sign, Exp;
    EvenHidden(f);
    var q := f.Hidden() + 2 * Pow2(f.p - 1 - d);
    MiddleWitness(f, d);
    AlignedWords(f, a, b, d, q * Pow2(f.g) + Pow2(f.g - 1), Pow2(f.g));
    MulStrict(0, q, Pow2(f.g));
    TieInPlace(f, a, b, q);
  }

  lemma TopTie(f: Format, a: nat, b: nat)
    requires IsWitness(f, f.p, a, b)
    ensures FalseTie(f, a, b)
  {
    hide Pow2, LargeMant, SmallMant, Aligned, AlignedSum, Lost, FalseTie, Mant, Sign, Exp;
    EvenHidden(f);
    TopWitness(f);
    AlignedWords(f, a, b, f.p, f.Hidden() * Pow2(f.g) + Pow2(f.g - 1), Pow2(f.g));
    MulStrict(0, f.Hidden(), Pow2(f.g));
    TieInPlace(f, a, b, f.Hidden());
  }

  lemma NegativeTie(f: Format, a: nat, b: nat)
    requires IsWitness(f, f.p + 1, a, b)
    ensures FalseTie(f, a, b)
  {
    hide Pow2, LargeMant, SmallMant, Aligned, AlignedSum, Lost, FalseTie, Mant, Sign, Exp;
    var t: int := (f.Hidden() + 1) * Pow2(f.g) + Pow2(f.g - 1);
    NegativeWitness(f);
    AlignedWords(f, a, b, f.p + 1, -t, Pow2(f.g));
    OddQuotient(f, t);
    TieInPlace(f, a, b, f.Hidden() + 1);
  }

  lemma OddQuotient(f: Format, t: int)
    requires Roomy(f) && t == (f.Hidden() + 1) * Pow2(f.g) + Pow2(f.g - 1)
    ensures t > 0 && f.Hidden() + 1 < 2 * f.Hidden() && (f.Hidden() + 1) % 2 == 1
  {
    hide Pow2;
    EvenHidden(f);
    MulMonotone(0, f.Hidden() + 1, Pow2(f.g));
  }

  // For every difference from g to p + 1: two words, that far apart, with an in-range sum that is misrounded.
  lemma MisroundedPair(f: Format, d: nat) returns (a: nat, b: nat)
    requires Roomy(f) && f.g <= d <= f.p + 1
    ensures AddsInRange(f, a, b) && Exp(f, a) == Exp(f, b) + d
    ensures Mant(f, b) == SmallMant(f, d) && Sign(f, b) == Negative(f, d)
    ensures !IsNearestEven(f, ExactSum(f, a, b), 1, AddWords(f, a, b))
  {
    hide Pow2, LargeMant, SmallMant, FalseTie, AddWords, IsNearestEven, InRange, Mant, Sign, Normal, Exp, Witness,
      ExactSum;
    WitnessFields(f, d);
    a, b := Witness(f, Negative(f, d), 1 + d, LargeMant(f, d)), Witness(f, Negative(f, d), 1, SmallMant(f, d));
    SameSignInRange(f, a, b, d);
    WitnessIsFalseTie(f, d, a, b);
    OrderedSumIsExact(f, a, b);
  }

  // The exponents alone decide: sums of words d apart are all rounded correctly if and only if d is below the
  // number of guard bits or above the precision plus one.
  lemma ExponentsDecide(f: Format, d: nat)
    requires Roomy(f)
    ensures RoundsAllApart(f, d) <==> d < f.g || d > f.p + 1
  {
    hide Pow2, AddWords, IsNearestEven, IsNearest, InRange, Normal, Exp, ExactSum;
    if f.g <= d <= f.p + 1 {
      var a, b := MisroundedPair(f, d);
    } else {
      forall a: nat, b: nat | AddsInRange(f, a, b) && Apart(f, a, b, d)
        ensures IsNearestEven(f, ExactSum(f, a, b), 1, AddWords(f, a, b))
      {
        if d < f.g {
          CloseSumIsNearestEven(f, a, b);
        } else {
          FarSumIsNearest(f, a, b);
          NearestIsNearestEven(f, ExactSum(f, a, b), 1, AddWords(f, a, b));
        }
      }
    }
  }
}

/**
 __adddf3 when the compiler leaves its 64-bit alignment shift to __ashrdi3: for which operands the sum is still the
 same, and that it is never correctly rounded for the others.
 */
module FloatShiftHelper {
  import opened PowersOfTwo
  import opened FloatFormat
  import opened FloatRounding
  import opened FloatAddition
  import opened FloatAdditionError
  import opened FloatAdditionLimits
  import I = Integer

  // AlignedSum with the helper's shift.
  function HelperAlignedSum(a: nat, b: nat): int {
    var e1, e2 := Exp(DOUBLE, a), Exp(DOUBLE, b);
    if e1 > e2 then Guarded(DOUBLE, a) + I.HelperShift(Guarded(DOUBLE, b), e1 - e2)
    else I.HelperShift(Guarded(DOUBLE, a), e2 - e1) + Guarded(DOUBLE, b)
  }

  function HelperAddWords(a: nat, b: nat): nat {
    if a == 0 then b
    else if b == 0 then a
    else if Exp(DOUBLE, a) > Exp(DOUBLE, b) + DOUBLE.p + 1 then a
    else if Exp(DOUBLE, b) > Exp(DOUBLE, a) + DOUBLE.p + 1 then b
    else FinishSum(DOUBLE, HelperAlignedSum(a, b), Max(Exp(DOUBLE, a), Exp(DOUBLE, b)))
  }

  // __adddf3 calling __ashrdi3.
  method AddDf3(a: nat, b: nat) returns (r: nat)
    requires IsWord(DOUBLE, a) && IsWord(DOUBLE, b)
    ensures r == HelperAddWords(a, b)
    ensures (b == 0 ==> r == a) && (a == 0 ==> r == b)
  {
    hide Pow2, Exp, Sign, Mant, Finish, NormalizeUp, NormalizeDown, I.HelperShift;
    if b == 0 { return a; }
    if a == 0 { return b; }
    var exp1, exp2 := Exp(DOUBLE, a), Exp(DOUBLE, b);
    if exp1 > exp2 + DOUBLE.p + 1 { return a; }
    if exp2 > exp1 + DOUBLE.p + 1 { return b; }
    var mant1: int, mant2: int := Mant(DOUBLE, a) * Pow2(DOUBLE.g), Mant(DOUBLE, b) * Pow2(DOUBLE.g);
    if Sign(DOUBLE, a) { mant1 := -mant1; }
    if Sign(DOUBLE, b) { mant2 := -mant2; }
    HelperSumFits(a, b);
    GuardedIsWord(a);
    GuardedIsWord(b);
    if exp1 > exp2 {
      mant2 := I.Ashrdi3(mant2, exp1 - exp2);
    } else {
      mant1 := I.Ashrdi3(mant1, exp2 - exp1);
      exp1 := exp2;
    }
    mant1 := mant1 + mant2;
    if mant1 == 0 { return 0; }
    r := NormalizeAndRound(DOUBLE, mant1 < 0, Abs(mant1), exp1);
  }

  lemma GuardedIsWord(w: nat)
    ensures I.IsSigned(Guarded(DOUBLE, w), I.W64) && 8 * Top(DOUBLE) == I.W64
  {
    GuardedBounds(DOUBLE, w);
    I.PowersOfWords();
    Pow2Sum(61, 3);
    assert Pow2(3) == 8;
  }

  // The helper's result is no larger than what it shifts.
  lemma HelperShrinks(m: int, d: nat)
    requires Top(DOUBLE) <= Abs(m) < 2 * Top(DOUBLE)
    ensures Abs(I.HelperShift(m, d)) < 2 * Top(DOUBLE)
  {
    I.PowersOfWords();
    Pow2Monotone(32, 61);
    hide Pow2;
    if d < 32 {
      FloorSize(m, Pow2(d));
    } else if d > 32 {
      FloorSize(m, Pow2(d - 32));
    }
  }

  lemma HelperSumFits(a: nat, b: nat)
    ensures Abs(HelperAlignedSum(a, b)) < 4 * Top(DOUBLE)
  {
    hide Pow2, Guarded, I.HelperShift, Top, Exp;
    GuardedBounds(DOUBLE, a);
    GuardedBounds(DOUBLE, b);
    if Exp(DOUBLE, a) > Exp(DOUBLE, b) {
      HelperShrinks(Guarded(DOUBLE, b), Exp(DOUBLE, a) - Exp(DOUBLE, b));
    } else {
      HelperShrinks(Guarded(DOUBLE, a), Exp(DOUBLE, b) - Exp(DOUBLE, a));
    }
  }

  // ---------------------------------------------------------------- one shift

  // The shifted operand: right up to 31, at 32 if both words agree, and off by 2^38 at least from 33 to 54.
  lemma HelperInDoubleSums(w: nat, d: nat)
    requires 0 < d <= DOUBLE.p + 1
    ensures var m := Guarded(DOUBLE, w);
      && I.IsSigned(m, I.W64)
      && (d < 32 ==> I.HelperShift(m, d) == m / Pow2(d))
      && (d == 32 ==> (I.HelperShift(m, d) == m / Pow2(d) <==> m % I.W32 == m / I.W32 % I.W32))
      && (d > 32 ==> Abs(I.HelperShift(m, d) - m / Pow2(d)) >= Pow2(38))
  {
    var m := Guarded(DOUBLE, w);
    GuardedBounds(DOUBLE, w);
    I.PowersOfWords();
    Pow2Sum(61, 3);
    assert Pow2(3) == 8;
    hide Pow2, Guarded;
    I.HelperShiftIsShift(m, d);
    if d > 32 { HelperMisses(m, d); }
  }

  lemma HelperMisses(m: int, d: nat)
    requires 32 < d <= 54 && Abs(m) >= Pow2(61)
    ensures Abs(I.HelperShift(m, d) - m / Pow2(d)) >= Pow2(38)
  {
    hide Pow2;
    I.PowersOfWords();
    Pow2Sum(d - 32, 32);
    I.QuotientTwice(m, Pow2(d - 32), Pow2(32));
    Pow2Monotone(d - 32, 22);
    Pow2Sum(39, 22);
    PowersOf38();
    FarFromItsQuotient(m, Pow2(d - 32), Pow2(39), Pow2(22), I.W32);
  }

  lemma PowersOf38()
    ensures Pow2(39) == 2 * Pow2(38) && Pow2(38) == 64 * I.W32
  {
    I.PowersOfWords();
    assert Pow2(6) == 64;
    hide Pow2;
    Pow2Sum(32, 6);
  }

  lemma FarFromItsQuotient(m: int, p: nat, q: nat, t: nat, word: nat)
    requires 0 < p <= t && Abs(m) >= q * t && word >= 4 && word % 4 == 0 && q >= 4
    ensures 2 * Abs(m / p - m / p / word) >= q
  {
    var x := m / p;
    assert m == x * p + m % p;
    MulMonotone(p, t, q);
    if 0 <= x < q {
      MulMonotone(x + 1, q, p);
      Distribute(x, 1, p);
    } else if 0 - q < x < 0 {
      MulMonotone(1 - q, x, p);
      Distribute(1, 0 - q, p);
      NegatedProduct(q, p);
    }
    FarFromItsFraction(x, q, word);
  }

  lemma FarFromItsFraction(x: int, q: nat, word: nat)
    requires Abs(x) >= q && word >= 4 && word % 4 == 0 && q >= 4
    ensures 2 * Abs(x - x / word) >= q
  {
    var w := word / 4;
    I.QuotientTwice(x, 4, w);
    FloorSize(x / 4, w);
    assert 4 * w == word;
  }

  // ---------------------------------------------------------------- a sum that is far off

  // What a finished sum of n units at exponent e is: mantissa m, rounded from v, at an exponent that may have left
  // the field on either side.
  lemma Finished(f: Format, sign: bool, n: nat, e: nat) returns (v: nat, x: int)
    requires f.p >= 1 && f.g >= 3 && 0 < n < 4 * Top(f)
    ensures Top(f) <= v < 2 * Top(f) && e - (f.p + f.g - 1) <= x <= e + 1
    ensures f.Hidden() <= RoundedMant(f, v) <= Pow2(f.p) && 2 * Abs(v - RoundedMant(f, v) * Pow2(f.g)) <= Pow2(f.g)
    ensures Finish(f, sign, NormalizeDown(f, NormalizeUp(f, Wide(n, e)))) == PackRounded(f, sign, x, RoundedMant(f, v))
    ensures x >= 0 ==> Abs(v * Pow2(x) - n * Pow2(e)) <= Pow2(e)
  {
    hide Pow2, Top, RoundedMant, Finish, PackRounded;
    TopFacts(f);
    var k := NormalizeUpShape(f, Wide(n, e));
    var w := NormalizeDown(f, NormalizeUp(f, Wide(n, e)));
    v, x := w.mant, w.exp;
    Pow2Zero();
    if n * Pow2(k) >= 2 * Top(f) {
      NextPower(n / 2, e);
      assert n == 2 * (n / 2) + n % 2;
      Distribute(2 * (n / 2), n % 2, Pow2(e));
    } else {
      if k >= f.p + f.g { Pow2Monotone(f.p + f.g, k); MulMonotone(1, n, Pow2(k)); }
      if k <= e { TwoFactors(n, k, e - k, e); }
    }
    RoundUpIsNearestEven(f, v);
    FinishPacksRounded(f, sign, v, x);
  }

  lemma PackedExp(f: Format, sign: bool, x: int, m: nat)
    requires f.p >= 1 && f.Hidden() <= m <= Pow2(f.p)
    ensures Exp(f, PackRounded(f, sign, x, m)) == (if m == Pow2(f.p) then x + 1 else x) % (f.MaxExp() + 2)
  {
    var h, t := f.Hidden(), Pow2(f.g + 2);
    var e, frac := if m == Pow2(f.p) then x + 1 else x, if m == Pow2(f.p) then 0 else m - h;
    var top := Pack(f, sign, e, frac) / (h * t);
    assert Pow2(f.bits - 1) == h * t by { Pow2Sum(f.p - 1, f.g + 2); }
    assert Pow2(f.p) == 2 * h;
    hide Pow2;
    PackedParts(f, sign, e, frac, h, t);
  }

  lemma PackedParts(f: Format, sign: bool, e: int, frac: nat, h: nat, t: nat)
    requires f.p >= 1 && h == f.Hidden() && t == Pow2(f.g + 2) && Pow2(f.bits - 1) == h * t && frac < h
    ensures Exp(f, Pack(f, sign, e, frac)) == e % t
  {
    hide Pow2;
    var low, high := e % t, e / t % 2;
    var top := if f == SINGLE then (if sign || high == 1 then 1 else 0) else ((if sign then 1 else 0) + high) % 2;
    SplitWord(Pack(f, sign, e, frac), h, t, top, low, frac);
  }

  // The routine's own result is a normal word within three units of the exact sum.
  lemma NearbyWord(f: Format, a: nat, b: nat) returns (c: nat)
    requires f.p >= 2 && f.g >= 3 && AddsInRange(f, a, b) && Exp(f, a) >= Exp(f, b) && !Far(f, a, b)
    ensures Normal(f, c) && Abs(ExactSum(f, a, b) - Value(f, c)) * Pow2(f.g) < 3 * Pow2(f.g) * Pow2(Exp(f, a))
  {
    hide Pow2, Value, ExactSum, Exp, Normal, InRange, AddWords, RoundedMant, PackRounded, NormalizeUp,
      NormalizeDown, Abs;
    c := AddWords(f, a, b);
    SumError(f, a, b);
    var w := SumIsPacked(f, a, b);
    var w' := NormalizedSum(f, a, b);
    PackRoundedFields(f, ExactSum(f, a, b) < 0, w.exp, RoundedMant(f, w.mant));
    var e := Exp(f, a);
    Pow2Monotone(Exp(f, c), e + 2);
    NextPower(1, e);
    NextPower(1, e + 1);
    EightUnits(f.g);
    WithinThree(Pow2(Exp(f, c)), Pow2(e), Pow2(f.g - 1));
  }

  lemma WithinThree(w: nat, u: nat, half: nat)
    requires w <= 4 * u && half >= 4
    ensures w * (half + 2) <= 3 * (2 * half) * u
  {
    MulMonotone(w, 4 * u, half + 2);
    Associate(4, u, half + 2);
    MulMonotone(4 * (half + 2), 6 * half, u);
  }

  // A word within three units of the exact sum has an exponent less than three above the larger operand's.
  lemma NearbyExponent(f: Format, a: nat, b: nat, r: nat)
    requires f.p >= 2 && f.g >= 3 && Exp(f, a) >= Exp(f, b)
    requires Abs(ExactSum(f, a, b) - Value(f, r)) * Pow2(f.g) < 3 * Pow2(f.g) * Pow2(Exp(f, a))
    ensures Exp(f, r) < Exp(f, a) + 3
  {
    hide Pow2, Exp, Mant, Sign, AlignedSum;
    var e, g, h := Exp(f, a), Pow2(f.g), f.Hidden();
    SumAligned(f, a, b);
    SumSizes(f, a, b);
    TopFacts(f);
    MantBounds(f, r);
    MulMonotone(h, Mant(f, r), Pow2(Exp(f, r)));
    SmallerThan(ExactSum(f, a, b), AlignedSum(f, a, b), Value(f, r), h, g, Pow2(e));
    if Exp(f, r) >= e + 3 {
      NextPower(1, e);
      NextPower(1, e + 1);
      NextPower(1, e + 2);
      Pow2Monotone(e + 3, Exp(f, r));
      MulMonotone(8 * Pow2(e), Pow2(Exp(f, r)), h);
    }
  }

  lemma SmallerThan(x: int, s: int, v: int, h: nat, g: nat, u: nat)
    requires h >= 1 && g >= 1 && u >= 1 && 0 <= x * g - s * u < u && Abs(s) < 4 * (h * g)
    requires Abs(x - v) * g < 3 * g * u
    ensures Abs(v) < h * (8 * u)
  {
    assert Abs(x - v) < 3 * u by { Associate(3, g, u); Associate(3, u, g); MulCancel(Abs(x - v), 3 * u, g); }
    assert Abs(x) <= 4 * (h * u) by {
      Associate(h, g, u);
      Associate(h, u, g);
      SumBelow(x, s, h * g, h * u, g, u);
    }
    EightTimes(Abs(v), h, u);
  }

  lemma EightTimes(v: nat, h: nat, u: nat)
    requires h >= 1 && u >= 1 && v < 4 * (h * u) + 3 * u
    ensures v < h * (8 * u)
  {
    MulMonotone(1, h, u);
    Associate(h, u, 8);
  }

  lemma SumBelow(x: int, s: int, hg: nat, hu: nat, g: nat, u: nat)
    requires g >= 1 && u >= 1 && 0 <= x * g - s * u < u && Abs(s) < 4 * hg && hg * u == hu * g
    ensures Abs(x) <= 4 * hu
  {
    AbsScale(s, u);
    AbsScale(x, g);
    MulMonotone(Abs(s), 4 * hg - 1, u);
    Distribute(4 * hg, -1, u);
    Associate(4, hg, u);
    Associate(4, hu, g);
    MulCancel(Abs(x), 4 * hu, g);
  }

  // A finished sum that lies far from the aligned one is at least three units from the exact sum.
  lemma GapRemains(x: int, s0: int, s: int, v: nat, m: nat, r: int, g: nat, u: nat, w: nat)
    requires 0 <= x * g - s0 * u < u && Abs(s - s0) >= 8 * g && g >= 8
    requires Abs(v * w - Abs(s) * u) <= u && 2 * Abs(v - m * g) <= g && w <= 2 * u
    requires r == if s < 0 then -(m * w) else m * w
    ensures Abs(x - r) * g >= 3 * g * u
  {
    assert Abs(Abs(s) * u - m * w * g) <= g * u + u by { RoundedGap(Abs(s) * u, v, m, g, u, w); }
    assert Abs(s * u - r * g) <= g * u + u by {
      NegatedProduct(Abs(s), u);
      NegatedProduct(m * w, g);
    }
    assert Abs(s * u - s0 * u) >= 8 * (g * u) by {
      ScaledGap(s, s0, u);
      MulMonotone(8 * g, Abs(s - s0), u);
      Associate(8, g, u);
    }
    MulMonotone(8, g, u);
    ScaledGap(x, r, g);
    Associate(3, g, u);
    Separate(x * g, s0 * u, s * u, r * g, g * u, u);
  }

  lemma Separate(y: int, y0: int, z: int, r: int, k: nat, u: nat)
    requires 0 <= y - y0 < u && 8 * u <= k && Abs(z - r) <= k + u && Abs(z - y0) >= 8 * k
    ensures Abs(y - r) >= 3 * k
  {}

  lemma RoundedGap(n: int, v: nat, m: nat, g: nat, u: nat, w: nat)
    requires Abs(v * w - n) <= u && 2 * Abs(v - m * g) <= g && w <= 2 * u
    ensures Abs(n - m * w * g) <= g * u + u
  {
    Associate(m, w, g);
    Associate(m, g, w);
    ScaledGap(v, m * g, w);
    MulMonotone(2 * Abs(v - m * g), g, w);
    Associate(2, Abs(v - m * g), w);
    MulMonotone(w, 2 * u, g);
    Associate(2, u, g);
  }

  // The exponent of a normal word that is near the exact sum has not left its field.
  lemma ExponentStays(x: int, e: nat, r: nat, max: nat, low: nat)
    requires r == x % (max + 2) && 1 <= r <= max && r < e + 3 && e <= max
    requires e - low <= x <= e + 2 && low + 4 <= max
    ensures x == r
  {
    if x < 0 {
      QuotientUnique(x, max + 2, -1, x + max + 2);
    } else if x < max + 2 {
      QuotientUnique(x, max + 2, 0, x);
    } else {
      QuotientUnique(x, max + 2, 1, x - max - 2);
    }
  }

  // Whatever is finished instead of the aligned sum, if it is eight units off or more, the result is not the nearest.
  lemma FarOffIsNotNearest(f: Format, a: nat, b: nat, s: int)
    requires f.p >= 2 && f.g >= 3 && f.p + f.g + 4 <= f.MaxExp()
    requires AddsInRange(f, a, b) && Exp(f, a) >= Exp(f, b) && !Far(f, a, b)
    requires Abs(s) < 4 * Top(f) && Abs(s - AlignedSum(f, a, b)) >= 8 * Pow2(f.g)
    ensures !IsNearestEven(f, ExactSum(f, a, b), 1, FinishSum(f, s, Exp(f, a)))
  {
    hide Pow2, Value, ExactSum, Exp, InRange, RoundedMant, PackRounded, NormalizeUp, NormalizeDown, AlignedSum, Finish,
      Top, Mant, Sign, Far;
    var x, e, r := ExactSum(f, a, b), Exp(f, a), FinishSum(f, s, Exp(f, a));
    if IsNearestEven(f, x, 1, r) {
      NormalIsNonZero(f, r);
      var c := NearbyWord(f, a, b);
      assert Abs(x - Value(f, r)) <= Abs(x - Value(f, c));
      MulMonotone(Abs(x - Value(f, r)), Abs(x - Value(f, c)), Pow2(f.g));
      NotSoNear(f, a, b, s, r);
    }
  }

  lemma NotSoNear(f: Format, a: nat, b: nat, s: int, r: nat)
    requires f.p >= 2 && f.g >= 3 && f.p + f.g + 4 <= f.MaxExp() && Exp(f, a) <= f.MaxExp() && Exp(f, a) >= Exp(f, b)
    requires 0 < Abs(s) < 4 * Top(f) && Abs(s - AlignedSum(f, a, b)) >= 8 * Pow2(f.g)
    requires r == FinishSum(f, s, Exp(f, a)) && Normal(f, r)
    ensures Abs(ExactSum(f, a, b) - Value(f, r)) * Pow2(f.g) >= 3 * Pow2(f.g) * Pow2(Exp(f, a))
  {
    hide Pow2, ExactSum, Exp, RoundedMant, PackRounded, NormalizeUp, NormalizeDown, AlignedSum, Finish, Top, Mant,
      Sign, Value, Magnitude;
    var e, g := Exp(f, a), Pow2(f.g);
    if Abs(ExactSum(f, a, b) - Value(f, r)) * g < 3 * g * Pow2(e) {
      var v, y := Finished(f, s < 0, Abs(s), e);
      var m := RoundedMant(f, v);
      NearbyExponent(f, a, b, r);
      PackedExp(f, s < 0, y, m);
      ExponentStays(if m == Pow2(f.p) then y + 1 else y, e, Exp(f, r), f.MaxExp(), f.p + f.g - 1);
      PackRoundedFields(f, s < 0, y, m);
      NotSoNearFinished(f, a, b, s, v, m, y, r);
    }
  }

  lemma NotSoNearFinished(f: Format, a: nat, b: nat, s: int, v: nat, m: nat, y: nat, r: nat)
    requires f.p >= 1 && f.g >= 3 && Exp(f, a) >= Exp(f, b) && y <= Exp(f, a) + 1
    requires Abs(s - AlignedSum(f, a, b)) >= 8 * Pow2(f.g)
    requires Abs(v * Pow2(y) - Abs(s) * Pow2(Exp(f, a))) <= Pow2(Exp(f, a)) && 2 * Abs(v - m * Pow2(f.g)) <= Pow2(f.g)
    requires Sign(f, r) == (s < 0) && Magnitude(f, r) == m * Pow2(y)
    ensures Abs(ExactSum(f, a, b) - Value(f, r)) * Pow2(f.g) >= 3 * Pow2(f.g) * Pow2(Exp(f, a))
  {
    hide Pow2, Exp, AlignedSum, Mant, Sign, Magnitude, Abs;
    var e := Exp(f, a);
    SumAligned(f, a, b);
    EightUnits(f.g);
    Pow2Monotone(y, e + 1);
    NextPower(1, e);
    GapRemains(ExactSum(f, a, b), AlignedSum(f, a, b), s, v, m, Value(f, r), Pow2(f.g), Pow2(e), Pow2(y));
  }

  // ---------------------------------------------------------------- the double sum with the helper

  // The difference of the operands' exponents, in either order.
  function Difference(a: nat, b: nat): nat { Abs(Exp(DOUBLE, a) - Exp(DOUBLE, b)) }

  lemma HelperCommutes(a: nat, b: nat)
    ensures HelperAddWords(a, b) == HelperAddWords(b, a)
  {
    hide Pow2, Exp, Guarded, FinishSum;
    if Exp(DOUBLE, a) == Exp(DOUBLE, b) {
      ShiftByNothing(Guarded(DOUBLE, a));
      ShiftByNothing(Guarded(DOUBLE, b));
    }
  }

  lemma ShiftByNothing(m: int)
    ensures I.HelperShift(m, 0) == m
  {
    assert Pow2(0) == 1;
  }

  // Up to a difference of 31 and from 55 on the helper makes no difference, on all words.
  lemma HelperAgrees(a: nat, b: nat)
    requires Difference(a, b) <= 31 || Difference(a, b) >= 55
    ensures HelperAddWords(a, b) == AddWords(DOUBLE, a, b)
  {
    hide Pow2, Exp, Guarded, FinishSum;
  }

  // From 33 to 54 no in-range sum is rounded correctly.
  lemma HelperNeverNearest(a: nat, b: nat)
    requires AddsInRange(DOUBLE, a, b) && 33 <= Difference(a, b) <= 54
    ensures !IsNearestEven(DOUBLE, ExactSum(DOUBLE, a, b), 1, HelperAddWords(a, b))
  {
    hide Pow2, Exp, Normal, InRange, ExactSum, HelperAddWords, IsNearestEven, Guarded, I.HelperShift;
    if Exp(DOUBLE, a) > Exp(DOUBLE, b) {
      HelperInDoubleSums(b, Exp(DOUBLE, a) - Exp(DOUBLE, b));
      LargeGap();
      HelperOffIsNotNearest(a, b);
    } else {
      HelperCommutes(a, b);
      SumCommutes(DOUBLE, a, b);
      HelperInDoubleSums(a, Exp(DOUBLE, b) - Exp(DOUBLE, a));
      LargeGap();
      HelperOffIsNotNearest(b, a);
    }
  }

  lemma LargeGap()
    ensures Pow2(38) >= 0x1000
  {
    PowersOf38();
  }

  // Nor is one 32 apart, if the words of the smaller mantissa differ by 4096 or more. If they are equal, the helper
  // makes no difference.
  lemma HelperAt32(a: nat, b: nat)
    requires Exp(DOUBLE, a) == Exp(DOUBLE, b) + 32
    ensures var m := Guarded(DOUBLE, b); var gap := m % I.W32 - m / I.W32 % I.W32;
      && (gap == 0 ==> HelperAddWords(a, b) == AddWords(DOUBLE, a, b))
      && (AddsInRange(DOUBLE, a, b) && Abs(gap) >= 0x1000 ==>
            !IsNearestEven(DOUBLE, ExactSum(DOUBLE, a, b), 1, HelperAddWords(a, b)))
  {
    hide Pow2, Exp, Normal, InRange, ExactSum, FinishSum, IsNearestEven, Guarded;
    var m := Guarded(DOUBLE, b);
    I.PowersOfWords();
    GuardedIsWord(b);
    WordsOf(m);
    if AddsInRange(DOUBLE, a, b) && Abs(m % I.W32 - m / I.W32 % I.W32) >= 0x1000 { HelperOffIsNotNearest(a, b); }
  }

  // The helper keeps the low word under the sign; the shift is the high one.
  lemma WordsOf(m: int)
    requires I.IsSigned(m, I.W64)
    ensures (if m < 0 then 0 - I.W32 else 0) + m % I.W32 - m / I.W32 == m % I.W32 - m / I.W32 % I.W32
  {
    var high := m / I.W32;
    QuotientUnique(high, I.W32, if high < 0 then -1 else 0, if high < 0 then high + I.W32 else high);
  }

  lemma HelperOffIsNotNearest(a: nat, b: nat)
    requires AddsInRange(DOUBLE, a, b) && 0 < Exp(DOUBLE, a) - Exp(DOUBLE, b) <= 54
    requires var m, d := Guarded(DOUBLE, b), Exp(DOUBLE, a) - Exp(DOUBLE, b);
      Abs(I.HelperShift(m, d) - m / Pow2(d)) >= 0x1000
    ensures !IsNearestEven(DOUBLE, ExactSum(DOUBLE, a, b), 1, HelperAddWords(a, b))
  {
    hide Exp, Normal, InRange, ExactSum, FinishSum, IsNearestEven, Guarded, I.HelperShift;
    assert Pow2(9) == 512 && Pow2(11) == 2048;
    hide Pow2;
    NormalIsNonZero(DOUBLE, a);
    NormalIsNonZero(DOUBLE, b);
    HelperSumFits(a, b);
    FarOffIsNotNearest(DOUBLE, a, b, HelperAlignedSum(a, b));
  }

  // ---------------------------------------------------------------- by exponents alone

  ghost predicate HelperRoundsAllApart(d: nat) {
    forall a: nat, b: nat :: AddsInRange(DOUBLE, a, b) && Difference(a, b) == d ==>
      IsNearestEven(DOUBLE, ExactSum(DOUBLE, a, b), 1, HelperAddWords(a, b))
  }

  // The safe differences are those of the plain shift.
  lemma HelperExponents(d: nat)
    ensures HelperRoundsAllApart(d) <==> d <= 8 || d >= 55
  {
    hide Pow2, AddWords, HelperAddWords, IsNearestEven, InRange, Normal, Exp, ExactSum;
    RoomForDouble();
    if 9 <= d <= 54 {
      var a, b := MisroundedPair(DOUBLE, d);
      assert Difference(a, b) == d;
      if d <= 31 {
        HelperAgrees(a, b);
      } else if d == 32 {
        PairAt32(a, b);
      } else {
        HelperNeverNearest(a, b);
      }
    } else {
      ExponentsDecide(DOUBLE, d);
      forall a: nat, b: nat | AddsInRange(DOUBLE, a, b) && Difference(a, b) == d
        ensures IsNearestEven(DOUBLE, ExactSum(DOUBLE, a, b), 1, HelperAddWords(a, b))
      {
        HelperAgrees(a, b);
        assert Apart(DOUBLE, a, b, d);
      }
    }
  }

  lemma RoomForDouble()
    ensures Roomy(DOUBLE)
  {
    assert Pow2(11) == 2048;
  }

  lemma PairAt32(a: nat, b: nat)
    requires AddsInRange(DOUBLE, a, b) && Exp(DOUBLE, a) == Exp(DOUBLE, b) + 32
    requires Mant(DOUBLE, b) == SmallMant(DOUBLE, 32) && !Sign(DOUBLE, b)
    ensures !IsNearestEven(DOUBLE, ExactSum(DOUBLE, a, b), 1, HelperAddWords(a, b))
  {
    hide Exp, Normal, InRange, ExactSum, HelperAddWords, IsNearestEven, Mant, Sign, AddWords;
    I.PowersOfWords();
    assert Pow2(9) == 0x200 && Pow2(20) == 0x10_0000;
    Pow2Sum(32, 20);
    assert Pow2(31) == 0x8000_0000;
    hide Pow2;
    var m := Guarded(DOUBLE, b);
    assert m == 0x2000_0100_0000_0200;
    HelperAt32(a, b);
  }
}

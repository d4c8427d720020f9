/** How close __addsf3 and __adddf3 come to the exact sum. */
module FloatAdditionError {
  import opened PowersOfTwo
  import opened FloatFormat
  import opened FloatRounding
  import opened FloatAddition

  // ---------------------------------------------------------------- alignment

  // Shifting s2 right by k loses its lowest k bits.
  lemma ShiftLoss(s1: int, s2: int, k: nat, e: nat)
    ensures s1 * Pow2(e + k) + s2 * Pow2(e) == (s1 + s2 / Pow2(k)) * Pow2(e + k) + s2 % Pow2(k) * Pow2(e)
    ensures 0 <= s2 % Pow2(k) * Pow2(e) < Pow2(e + k)
  {
    hide Pow2;
    var q, r, b, c := s2 / Pow2(k), s2 % Pow2(k), Pow2(e), Pow2(e + k);
    Pow2Sum(k, e);
    assert s2 == q * Pow2(k) + r;
    assert s2 * b == q * Pow2(k) * b + r * b;
    Associate(q, Pow2(k), b);
    assert (s1 + q) * c == s1 * c + q * c;
    MulStrict(r, Pow2(k), b);
  }

  // A multiple of 2^g loses nothing when shifted by fewer than g places, and stays even.
  lemma NoLoss(m: int, g: nat, k: nat)
    requires k < g
    ensures m * Pow2(g) % Pow2(k) == 0 && m * Pow2(g) / Pow2(k) == 2 * (m * Pow2(g - k - 1))
  {
    hide Pow2;
    var h := Pow2(g - k - 1);
    NextPower(m, g - k - 1);
    assert m * Pow2(g) == m * Pow2(g - k) * Pow2(k) by { TwoFactors(m, g - k, k, g); }
    assert m * Pow2(g - k) == 2 * m * h;
    Associate(2, m, h);
    QuotientUnique(m * Pow2(g), Pow2(k), 2 * (m * h), 0);
  }

  lemma GuardedNoLoss(f: Format, w: nat, k: nat)
    requires f.p >= 1 && k < f.g
    ensures Guarded(f, w) % Pow2(k) == 0 && Guarded(f, w) / Pow2(k) % 2 == 0
  {
    hide Pow2;
    var m: int := Mant(f, w);
    NegatedProduct(m, Pow2(f.g));
    NoLoss(if Sign(f, w) then -m else m, f.g, k);
  }

  // The aligned sum against the exact one: never more than one guard unit too small, and exact and even
  // when the exponents differ by less than g.
  lemma SumAligned(f: Format, a: nat, b: nat)
    requires f.p >= 1 && Exp(f, a) >= Exp(f, b)
    ensures var x, s, e := (Value(f, a) + Value(f, b)) * Pow2(f.g), AlignedSum(f, a, b), Exp(f, a);
      && 0 <= x - s * Pow2(e) < Pow2(e)
      && (Exp(f, a) - Exp(f, b) < f.g ==> x == s * Pow2(e) && s % 2 == 0)
  {
    hide Pow2;
    Pow2Zero();
    var k := Exp(f, a) - Exp(f, b);
    assert AlignedSum(f, a, b) == Guarded(f, a) + Guarded(f, b) / Pow2(k);
    SumAlignedBy(f, a, b, k, Exp(f, b));
    if k < f.g { SumAlignedExactly(f, a, b, k); }
  }

  lemma SumAlignedBy(f: Format, a: nat, b: nat, k: nat, e2: nat)
    requires f.p >= 1 && Exp(f, a) == e2 + k && Exp(f, b) == e2
    ensures var x, s := (Value(f, a) + Value(f, b)) * Pow2(f.g), Guarded(f, a) + Guarded(f, b) / Pow2(k);
      && 0 <= x - s * Pow2(e2 + k) < Pow2(e2 + k)
      && (Guarded(f, b) % Pow2(k) == 0 ==> x == s * Pow2(e2 + k))
  {
    hide Pow2, Value, Guarded;
    GuardedValue(f, a);
    GuardedValue(f, b);
    AlignInts(Value(f, a), Value(f, b), Pow2(f.g), Guarded(f, a), Guarded(f, b), k, e2);
  }

  lemma SumAlignedExactly(f: Format, a: nat, b: nat, k: nat)
    requires f.p >= 1 && k < f.g
    ensures Guarded(f, b) % Pow2(k) == 0 && (Guarded(f, a) + Guarded(f, b) / Pow2(k)) % 2 == 0
  {
    hide Pow2, Guarded;
    GuardedNoLoss(f, b, k);
    EvenGuarded(f, a);
  }

  lemma AlignInts(va: int, vb: int, g: nat, ga: int, gb: int, k: nat, e: nat)
    requires va * g == ga * Pow2(e + k) && vb * g == gb * Pow2(e)
    ensures 0 <= (va + vb) * g - (ga + gb / Pow2(k)) * Pow2(e + k) < Pow2(e + k)
    ensures gb % Pow2(k) == 0 ==> (va + vb) * g == (ga + gb / Pow2(k)) * Pow2(e + k)
  {
    hide Pow2;
    Distribute(va, vb, g);
    ShiftLoss(ga, gb, k, e);
  }

  lemma EvenGuarded(f: Format, w: nat)
    requires f.p >= 1 && f.g >= 1
    ensures Guarded(f, w) % 2 == 0
  {
    GuardedNoLoss(f, w, 0);
    assert Pow2(0) == 1;
  }

  // ---------------------------------------------------------------- normalisation

  lemma {:induction false} NormalizeUpShape(f: Format, w: Wide) returns (k: nat)
    requires f.p >= 1 && w.mant > 0
    ensures NormalizeUp(f, w) == Wide(w.mant * Pow2(k), w.exp - k)
    ensures w.mant * Pow2(k) >= Top(f) && (k > 0 ==> w.mant * Pow2(k) < 2 * Top(f))
    ensures w.mant >= Top(f) ==> k == 0
    decreases Pow2(f.p + f.g - 1) - w.mant
  {
    if w.mant >= Pow2(f.p + f.g - 1) {
      assert Pow2(0) == 1;
      return 0;
    }
    var j := NormalizeUpShape(f, Wide(2 * w.mant, w.exp - 1));
    NextPower(w.mant, j);
    k := j + 1;
  }

  // v at exponent e stands for y, up to two units.
  ghost predicate Approximates(f: Format, y: nat, v: nat, e: int, exactly: bool)
    requires f.p >= 1
  {
    && Top(f) <= v < 2 * Top(f) && e >= 1
    && Abs(y - v * Pow2(e)) < 2 * Pow2(e)
    && (exactly ==> y == v * Pow2(e))
  }

  // An exact sum stays exact; it needs no exponent below 1 because it is at least the smallest normal.
  lemma NormalizeExact(f: Format, y: nat, u: nat, e: nat)
    requires f.p >= 1 && 0 < u < 4 * Top(f) && u % 2 == 0
    requires y == u * Pow2(e) && y >= 2 * Top(f)
    ensures var w := NormalizeDown(f, NormalizeUp(f, Wide(u, e)));
      Approximates(f, y, w.mant, w.exp, true) && w.exp <= e + 1
  {
    hide Pow2;
    TopFacts(f);
    var k := NormalizeUpShape(f, Wide(u, e));
    var v := u * Pow2(k);
    if v >= 2 * Top(f) {
      Pow2Zero();
      NextPower(u / 2, e);
    } else {
      if k >= e { Pow2Monotone(e, k); MulMonotone(Pow2(e), Pow2(k), u); }
      TwoFactors(u, k, e - k, e);
    }
  }

  lemma Pow2Zero()
    ensures Pow2(0) == 1 && Pow2(1) == 2
  {}

  // A truncated sum is off by less than one unit before, and less than two units after, normalisation.
  lemma NormalizeInexact(f: Format, y: nat, u: nat, e: nat)
    requires f.p >= 1 && Top(f) < 2 * u < 8 * Top(f) && e >= 2
    requires Abs(y - u * Pow2(e)) < Pow2(e)
    ensures var w := NormalizeDown(f, NormalizeUp(f, Wide(u, e)));
      Approximates(f, y, w.mant, w.exp, false) && w.exp <= e + 1
  {
    hide Pow2;
    TopFacts(f);
    Pow2Zero();
    var k := NormalizeUpShape(f, Wide(u, e));
    assert k <= 1 by { if k >= 2 { FourTimes(u, k); } }
    if k == 1 {
      NextPower(u, e - 1);
      NextPower(1, e - 1);
    } else if u >= 2 * Top(f) {
      HalvedError(y, u, e);
    }
  }

  lemma FourTimes(u: nat, k: nat)
    requires k >= 2
    ensures u * Pow2(k) >= 4 * u
  {
    Pow2Monotone(2, k);
    MulMonotone(4, Pow2(k), u);
  }

  lemma HalvedError(y: nat, u: nat, e: nat)
    requires Abs(y - u * Pow2(e)) < Pow2(e)
    ensures Abs(y - u / 2 * Pow2(e + 1)) < 2 * Pow2(e + 1)
  {
    NextPower(u / 2, e);
    NextPower(1, e);
    assert u == 2 * (u / 2) + u % 2;
    Distribute(2 * (u / 2), u % 2, Pow2(e));
    MulMonotone(u % 2, 1, Pow2(e));
  }

  // ---------------------------------------------------------------- rounding

  function RoundedMant(f: Format, v: nat): nat
    requires f.g >= 1
  {
    RoundUp(f, v) / Pow2(f.g)
  }

  // The rounding step rounds to the nearest multiple of 2^g, ties to an even quotient.
  lemma RoundUpIsNearestEven(f: Format, v: nat)
    requires f.p >= 1 && f.g >= 2 && Top(f) <= v < 2 * Top(f)
    ensures var m, g := RoundedMant(f, v), Pow2(f.g);
      && f.Hidden() <= m <= Pow2(f.p)
      && 2 * Abs(v - m * g) <= g
      && (2 * Abs(v - m * g) == g ==> m % 2 == 0)
      && (m == Pow2(f.p) ==> v >= 2 * Top(f) - Pow2(f.g - 1))
  {
    TopFacts(f);
    RoundQuotient(v, Pow2(f.g - 1), f.Hidden());
  }

  lemma RoundQuotient(v: nat, half: nat, h: nat)
    requires half >= 2 && h * (2 * half) <= v < 2 * (h * (2 * half))
    ensures var g := 2 * half;
      var m := (v + half - (if v / g % 2 == 1 then 0 else 1)) / g;
      && h <= m <= 2 * h
      && 2 * Abs(v - m * g) <= g
      && (2 * Abs(v - m * g) == g ==> m % 2 == 0)
      && (m == 2 * h ==> v >= 2 * (h * g) - half)
  {
    var g := 2 * half;
    QuotientBetween(v, g, h);
    RoundChoice(v, half, v / g, v % g);
    Associate(2, h, g);
  }

  lemma QuotientBetween(v: nat, g: nat, h: nat)
    requires g > 0 && h * g <= v < 2 * (h * g)
    ensures h <= v / g < 2 * h
  {
    var q := v / g;
    assert v == q * g + v % g;
    Associate(2, h, g);
    if q < h { MulMonotone(q + 1, h, g); Distribute(q, 1, g); }
    if q >= 2 * h { MulMonotone(2 * h, q, g); }
  }

  // Rounding q units and t towards the nearer multiple.
  lemma RoundChoice(v: nat, half: nat, q: nat, t: nat)
    requires half >= 2 && t < 2 * half && v == q * (2 * half) + t
    ensures var g := 2 * half;
      var m := (v + half - (if q % 2 == 1 then 0 else 1)) / g;
      && m == (if t > half || (t == half && q % 2 == 1) then q + 1 else q)
      && (v - m * g == t || v - m * g == t - g)
      && 2 * Abs(v - m * g) <= g
      && (2 * Abs(v - m * g) == g ==> m % 2 == 0)
      && (m == q + 1 ==> v >= m * g - half)
  {
    var g := 2 * half;
    var s := v + half - (if q % 2 == 1 then 0 else 1);
    Distribute(q, 1, g);
    if t > half || (t == half && q % 2 == 1) {
      QuotientUnique(s, g, q + 1, s - (q + 1) * g);
    } else {
      QuotientUnique(s, g, q, s - q * g);
    }
  }

  // The two shifts after rounding agree with packing the rounded mantissa.
  lemma FinishPacksRounded(f: Format, sign: bool, v: nat, e: int)
    requires f.p >= 1 && f.g >= 2 && Top(f) <= v < 2 * Top(f)
    ensures f.Hidden() <= RoundedMant(f, v) <= Pow2(f.p)
    ensures Finish(f, sign, Wide(v, e)) == PackRounded(f, sign, e, RoundedMant(f, v))
  {
    RoundUpIsNearestEven(f, v);
    TopFacts(f);
    var g, h, s, m := Pow2(f.g), f.Hidden(), RoundUp(f, v), RoundedMant(f, v);
    assert g == 2 * Pow2(f.g - 1);
    FinishMant(g, h, s, m);
  }

  lemma FinishMant(g: nat, h: nat, s: nat, m: nat)
    requires g >= 1 && h >= 1 && m == s / g && h <= m <= 2 * h && s < 2 * (h * g) + g
    ensures s >= 2 * (h * g) <==> m == 2 * h
    ensures m == 2 * h ==> s / 2 / g == h && s / 2 / g % h == 0
    ensures m < 2 * h ==> m % h == m - h
  {
    hide *;
    assert s == m * g + s % g;
    Associate(2, h, g);
    if m == 2 * h {
      assert s / 2 == h * g + s % g / 2;
      QuotientUnique(s / 2, g, h, s % g / 2);
      QuotientUnique(h, h, 1, 0);
    } else {
      MulMonotone(m + 1, 2 * h, g);
      assert (m + 1) * g == m * g + g;
      QuotientUnique(m, h, 1, m - h);
    }
  }

  // ---------------------------------------------------------------- the range of the result

  // A sum no larger than the largest normal number rounds to an exponent within the field.
  lemma RoundedExpInRange(f: Format, y: nat, v: nat, e: int, exactly: bool)
    requires f.p >= 1 && f.g >= 3 && Approximates(f, y, v, e, exactly)
    requires y <= (Pow2(f.p) - 1) * Pow2(f.MaxExp()) * Pow2(f.g)
    ensures (if RoundedMant(f, v) == Pow2(f.p) then e + 1 else e) <= f.MaxExp()
  {
    hide Pow2, Top, RoundedMant;
    TopFacts(f);
    RoundUpIsNearestEven(f, v);
    EightUnits(f.g);
    TopAtLeastEight(f, 3);
    LargestGuarded(f.Hidden(), Pow2(f.g), Pow2(f.MaxExp()));
    SmallestAbove(y, v, e);
    ExpFits(Top(f), Pow2(f.g), v, e, f.MaxExp());
  }

  lemma ExpFits(t: nat, g: nat, v: nat, e: nat, max: nat)
    requires v >= t >= 2 && g >= 8
    requires (v - 2) * Pow2(e) < (2 * t - g) * Pow2(max)
    ensures e <= max && (v >= 2 * t - g / 2 ==> e < max)
  {
    hide Pow2;
    if e > max { TooLargeToFit(t, g, v, e, max); }
    if e == max { MulCancel(v - 2, 2 * t - g, Pow2(max)); }
  }

  lemma EightUnits(g: nat)
    requires g >= 3
    ensures Pow2(g) >= 8 && Pow2(g) == 2 * Pow2(g - 1)
  {
    assert Pow2(g - 1) == 2 * Pow2(g - 2) && Pow2(g - 2) == 2 * Pow2(g - 3);
  }

  lemma SmallestAbove(y: nat, v: nat, e: nat)
    requires Abs(y - v * Pow2(e)) < 2 * Pow2(e)
    ensures (v - 2) * Pow2(e) < y
  {
    Distribute(v, -2, Pow2(e));
  }

  lemma TooLargeToFit(t: nat, g: nat, v: nat, e: nat, max: nat)
    requires e > max && v >= t >= 2 && g >= 4
    ensures (2 * t - g) * Pow2(max) <= (v - 2) * Pow2(e)
  {
    Pow2Increasing(max, e);
    MulMonotone(2 * Pow2(max), Pow2(e), v - 2);
    Associate(2, v - 2, Pow2(max));
    MulMonotone(2 * t - g, 2 * (v - 2), Pow2(max));
  }

  lemma LargestGuarded(h: nat, g: nat, x: nat)
    ensures (2 * h - 1) * x * g == (2 * (h * g) - g) * x
  {
    Associate(2 * h - 1, x, g);
    Associate(2 * h - 1, g, x);
    assert (2 * h - 1) * g == 2 * (h * g) - g by { Associate(2, h, g); }
  }

  // ---------------------------------------------------------------- the theorems

  function ExactSum(f: Format, a: nat, b: nat): int
    requires f.p >= 1
  {
    Value(f, a) + Value(f, b)
  }

  ghost predicate AddsInRange(f: Format, a: nat, b: nat)
    requires f.p >= 1
  {
    Normal(f, a) && Normal(f, b) && InRange(f, ExactSum(f, a, b), 1)
  }

  // The exact sum in guard units, and what alignment and normalisation make of it.
  function GuardedSum(f: Format, a: nat, b: nat): nat
    requires f.p >= 1
  {
    Abs(ExactSum(f, a, b)) * Pow2(f.g)
  }

  // The operands' exponents differ by less than the number of guard bits.
  predicate Close(f: Format, a: nat, b: nat)
    requires f.p >= 1
  {
    Exp(f, a) < Exp(f, b) + f.g && Exp(f, b) < Exp(f, a) + f.g
  }

  // One operand is too small to change the other.
  predicate Far(f: Format, a: nat, b: nat)
    requires f.p >= 1
  {
    Exp(f, a) > Exp(f, b) + f.p + 1 || Exp(f, b) > Exp(f, a) + f.p + 1
  }

  // The sum between alignment and rounding stands for the exact one.
  lemma NormalizedSum(f: Format, a: nat, b: nat) returns (w: Wide)
    requires f.p >= 1 && f.g >= 3 && AddsInRange(f, a, b) && Exp(f, a) >= Exp(f, b) && !Far(f, a, b)
    ensures var s := AlignedSum(f, a, b);
      && s != 0 && (s < 0 <==> ExactSum(f, a, b) < 0)
      && w == NormalizeDown(f, NormalizeUp(f, Wide(Abs(s), Exp(f, a))))
      && w.exp <= Exp(f, a) + 1
      && Approximates(f, GuardedSum(f, a, b), w.mant, w.exp, Close(f, a, b))
  {
    hide Pow2, Guarded, Value, AlignedSum, NormalizeUp, NormalizeDown, Exp, Normal, Approximates, InRange, Top, Far;
    var s, e, g := AlignedSum(f, a, b), Exp(f, a), Pow2(f.g);
    SumAligned(f, a, b);
    SumSizes(f, a, b);
    SmallestGuardedSum(f, a, b);
    SignAndSize(ExactSum(f, a, b), s, g, Pow2(e));
    w := NormalizeDown(f, NormalizeUp(f, Wide(Abs(s), e)));
    EvenMagnitude(s);
    hide Abs;
    if Close(f, a, b) {
      NormalizeExact(f, GuardedSum(f, a, b), Abs(s), e);
    } else {
      NormalizeInexact(f, GuardedSum(f, a, b), Abs(s), e);
    }
  }

  lemma EvenMagnitude(s: int)
    ensures s % 2 == 0 ==> Abs(s) % 2 == 0
    ensures s != 0 <==> Abs(s) > 0
  {}

  lemma SmallestGuardedSum(f: Format, a: nat, b: nat)
    requires f.p >= 1 && AddsInRange(f, a, b)
    ensures GuardedSum(f, a, b) >= 2 * Top(f) && ExactSum(f, a, b) != 0
    ensures GuardedSum(f, a, b) <= (Pow2(f.p) - 1) * Pow2(f.MaxExp()) * Pow2(f.g)
  {
    hide Pow2;
    Pow2Zero();
    TopFacts(f);
    MulMonotone(f.Hidden() * 2, Abs(ExactSum(f, a, b)), Pow2(f.g));
    Associate(2, f.Hidden(), Pow2(f.g));
    MulMonotone(Abs(ExactSum(f, a, b)), (Pow2(f.p) - 1) * Pow2(f.MaxExp()), Pow2(f.g));
  }

  // The aligned sum and the exact one have the same sign, and their sizes agree up to one unit.
  lemma SignAndSize(x: int, s: int, g: nat, b: nat)
    requires g > 0 && b > 0 && 0 <= x * g - s * b < b && x != 0
    ensures s < 0 ==> x < 0
    ensures s > 0 ==> x > 0
    ensures Abs(Abs(x) * g - Abs(s) * b) < b
    ensures x * g == s * b ==> Abs(x) * g == Abs(s) * b && s != 0
  {
    AbsScale(x, g);
    AbsScale(s, b);
    if s < 0 { MulMonotone(s + 1, 0, b); Distribute(s, 1, b); MulCancel(x, 0, g); }
    if s > 0 { MulMonotone(1, s, b); MulCancel(0, x, g); }
    if s == 0 { MulCancel(x, 0, g); }
  }

  // Neither too large for the word nor, when bits were lost, cancelled by more than one place.
  lemma SumSizes(f: Format, a: nat, b: nat)
    requires f.p >= 1 && f.g >= 3 && Exp(f, a) >= Exp(f, b)
    ensures Abs(AlignedSum(f, a, b)) < 4 * Top(f)
    ensures !Close(f, a, b) ==> 2 * Abs(AlignedSum(f, a, b)) > Top(f)
  {
    hide Guarded, Pow2, Exp, Top;
    var k := Exp(f, a) - Exp(f, b);
    GuardedBounds(f, a);
    GuardedBounds(f, b);
    Pow2Zero();
    assert AlignedSum(f, a, b) == Guarded(f, a) + Guarded(f, b) / Pow2(k);
    ShiftedSize(Guarded(f, b), k, Top(f));
    if k >= f.g {
      TopAtLeastEight(f, k);
      ShiftedSmall(Guarded(f, b), Pow2(k), Top(f));
    }
  }

  lemma TopAtLeastEight(f: Format, k: nat)
    requires f.p >= 1 && f.g >= 3 && k >= 3
    ensures Top(f) >= 8 && Pow2(k) >= 8
  {
    Pow2Monotone(3, k);
    Pow2Monotone(3, f.p + f.g - 1);
    assert Pow2(3) == 8;
  }

  lemma ShiftedSmall(x: int, d: nat, t: nat)
    requires Abs(x) < 2 * t && d >= 8 && t >= 8
    ensures 2 * Abs(x / d) < t
  {
    var q := x / d;
    assert x == q * d + x % d;
    if q >= 0 {
      MulMonotone(8, d, q);
    } else {
      MulMonotone(8, d, -q - 1);
      Distribute(-q, -1, d);
      NegatedProduct(q, d);
    }
  }

  // What the routine returns for operands that both contribute.
  lemma SumIsPacked(f: Format, a: nat, b: nat) returns (w: Wide)
    requires f.p >= 2 && f.g >= 3 && AddsInRange(f, a, b) && Exp(f, a) >= Exp(f, b) && !Far(f, a, b)
    ensures AlignedSum(f, a, b) != 0 && (AlignedSum(f, a, b) < 0 <==> ExactSum(f, a, b) < 0)
    ensures w == NormalizeDown(f, NormalizeUp(f, Wide(Abs(AlignedSum(f, a, b)), Exp(f, a))))
    ensures Approximates(f, GuardedSum(f, a, b), w.mant, w.exp, Close(f, a, b))
    ensures var m := RoundedMant(f, w.mant);
      && f.Hidden() <= m <= Pow2(f.p)
      && (if m == Pow2(f.p) then w.exp + 1 else w.exp) <= f.MaxExp()
      && AddWords(f, a, b) == PackRounded(f, ExactSum(f, a, b) < 0, w.exp, m)
  {
    hide Pow2, Guarded, Value, AlignedSum, Finish;
    w := NormalizedSum(f, a, b);
    NormalIsNonZero(f, a);
    NormalIsNonZero(f, b);
    SmallestGuardedSum(f, a, b);
    RoundedExpInRange(f, GuardedSum(f, a, b), w.mant, w.exp, Close(f, a, b));
    FinishPacksRounded(f, ExactSum(f, a, b) < 0, w.mant, w.exp);
  }

  lemma SumCommutes(f: Format, a: nat, b: nat)
    requires f.p >= 1 && f.g >= 1
    ensures ExactSum(f, a, b) == ExactSum(f, b, a) && AddWords(f, a, b) == AddWords(f, b, a)
  {
    AddCommutes(f, a, b);
  }

  // Exactly rounded, ties to even, when the exponents differ by less than g (at most 5, at most 8).
  lemma CloseSumIsNearestEven(f: Format, a: nat, b: nat)
    requires f.p >= 2 && 3 <= f.g <= f.p && AddsInRange(f, a, b) && Close(f, a, b)
    ensures IsNearestEven(f, ExactSum(f, a, b), 1, AddWords(f, a, b))
  {
    hide Pow2, Value, AddWords, IsNearestEven, InRange, Normal, Exp;
    if Exp(f, a) < Exp(f, b) {
      SumCommutes(f, a, b);
      CloseOrderedSum(f, b, a);
    } else {
      CloseOrderedSum(f, a, b);
    }
  }

  lemma CloseOrderedSum(f: Format, a: nat, b: nat)
    requires f.p >= 2 && f.g >= 3 && AddsInRange(f, a, b) && Close(f, a, b) && Exp(f, a) >= Exp(f, b)
    requires !Far(f, a, b)
    ensures IsNearestEven(f, ExactSum(f, a, b), 1, AddWords(f, a, b))
  {
    hide Pow2, Value, AddWords, ExactSum, Exp, Mant, Normal, InRange, RoundedMant, PackRounded;
    var x, g := ExactSum(f, a, b), Pow2(f.g);
    var w := SumIsPacked(f, a, b);
    TopFacts(f);
    RoundUpIsNearestEven(f, w.mant);
    NegatedProduct(Abs(x), g);
    RoundedIsNearest(f, x < 0, w.mant, g, w.exp, RoundedMant(f, w.mant), x * g);
    UnscaleNearestEven(f, x, g, AddWords(f, a, b));
  }

  lemma UnscaleNearestEven(f: Format, x: int, k: nat, r: int)
    requires f.p >= 1 && k > 0 && IsNearestEven(f, x * k, k, r)
    ensures IsNearestEven(f, x, 1, r)
  {
    hide Pow2, Mant, Abs;
    forall c | Normal(f, c) && c != r
      ensures
         || Abs(x - Value(f, r) * 1) < Abs(x - Value(f, c) * 1)
         || (Abs(x - Value(f, r) * 1) == Abs(x - Value(f, c) * 1) && Mant(f, r) % 2 == 0)
    {
      ScaledGap(x, Value(f, r), k);
      ScaledGap(x, Value(f, c), k);
      MulCancel(Abs(x - Value(f, r)), Abs(x - Value(f, c)), k);
    }
  }

  lemma ScaledGap(x: int, v: int, k: nat)
    ensures Abs(x * k - v * k) == Abs(x - v) * k
  {
    Distribute(x, -v, k);
    NegatedProduct(v, k);
    AbsScale(x - v, k);
  }

  // When the exponents differ by more than p + 1 the larger operand is returned, and it is the nearest.
  lemma FarSumIsNearest(f: Format, a: nat, b: nat)
    requires f.p >= 2 && f.g >= 1 && Normal(f, a) && Normal(f, b) && Far(f, a, b)
    ensures IsNearest(f, ExactSum(f, a, b), 1, AddWords(f, a, b))
    decreases Exp(f, b)
  {
    hide Pow2, Value;
    if Exp(f, a) < Exp(f, b) {
      SumCommutes(f, a, b);
      FarSumIsNearest(f, b, a);
    } else {
      NormalIsNonZero(f, a);
      NormalIsNonZero(f, b);
      LargerOperandIsNearest(f, a, b);
    }
  }

  lemma LargerOperandIsNearest(f: Format, a: nat, b: nat)
    requires f.p >= 2 && Normal(f, a) && Normal(f, b) && Exp(f, a) > Exp(f, b) + f.p + 1
    ensures IsNearest(f, ExactSum(f, a, b), 1, a)
  {
    hide Pow2;
    var x := ExactSum(f, a, b);
    SmallAddend(f, b, Exp(f, a));
    forall c | Normal(f, c) && c != a
      ensures Abs(x - Value(f, a) * 1) < Abs(x - Value(f, c) * 1)
    {
      FarCandidate(f, a, b, c);
    }
  }

  // The smaller operand is less than a quarter of the larger one's unit.
  lemma SmallAddend(f: Format, b: nat, e: nat)
    requires f.p >= 1 && e > Exp(f, b) + f.p + 1
    ensures 4 * Abs(Value(f, b)) < Pow2(e)
  {
    hide Pow2;
    MantBounds(f, b);
    var s := f.p + Exp(f, b);
    TwoFactors(1, f.p, Exp(f, b), s);
    MulStrict(Mant(f, b), Pow2(f.p), Pow2(Exp(f, b)));
    NextPower(1, s);
    NextPower(1, s + 1);
    Pow2Monotone(s + 2, e);
  }

  // Distinct normal words are at least half a unit of either apart.
  lemma FarCandidate(f: Format, a: nat, b: nat, c: nat)
    requires f.p >= 2 && Normal(f, a) && Normal(f, b) && Normal(f, c) && c != a
    requires 4 * Abs(Value(f, b)) < Pow2(Exp(f, a))
    ensures Abs(Value(f, b)) < Abs(Value(f, a) + Value(f, b) - Value(f, c))
  {
    WordsAreApart(f, a, c);
  }

  lemma WordsAreApart(f: Format, a: nat, c: nat)
    requires f.p >= 2 && Normal(f, a) && Normal(f, c) && c != a
    ensures 2 * Abs(Value(f, a) - Value(f, c)) >= Pow2(Exp(f, a))
  {
    hide Pow2;
    var e1, m1, e2, m2, h := Exp(f, a), Mant(f, a), Exp(f, c), Mant(f, c), f.Hidden();
    MantBounds(f, a);
    MantBounds(f, c);
    MulMonotone(1, m1, Pow2(e1));
    if Sign(f, a) == Sign(f, c) {
      DistinctMagnitudes(f, a, c);
      MagnitudesAreApart(h, m1, e1, m2, e2);
    }
  }

  lemma MagnitudesAreApart(h: nat, m1: nat, e1: nat, m2: nat, e2: nat)
    requires 1 <= e1 && h <= m1 < 2 * h && h <= m2 < 2 * h
    requires m1 * Pow2(e1) != m2 * Pow2(e2)
    ensures 2 * Abs(m1 * Pow2(e1) - m2 * Pow2(e2)) >= Pow2(e1)
  {
    hide Pow2;
    if e2 >= e1 {
      ApartAbove(m1, e1, m2, e2);
    } else {
      ApartBelow(m1, e1, m2, e2);
    }
  }

  lemma ApartAbove(m1: nat, e1: nat, m2: nat, e2: nat)
    requires e1 <= e2 && m1 * Pow2(e1) != m2 * Pow2(e2)
    ensures Abs(m1 * Pow2(e1) - m2 * Pow2(e2)) >= Pow2(e1)
  {
    hide Pow2, Abs;
    TwoFactors(m2, e2 - e1, e1, e2);
    DistinctMultiples(m1, m2 * Pow2(e2 - e1), Pow2(e1));
  }

  lemma ApartBelow(m1: nat, e1: nat, m2: nat, e2: nat)
    requires e2 < e1 && m2 < 2 * m1
    ensures 2 * (m1 * Pow2(e1) - m2 * Pow2(e2)) >= Pow2(e1)
  {
    hide Pow2;
    NextPower(m1, e1 - 1);
    NextPower(1, e1 - 1);
    Pow2Monotone(e2, e1 - 1);
    SmallerTerm(m1, m2, Pow2(e1 - 1), Pow2(e2));
  }

  lemma DistinctMultiples(x: nat, y: nat, k: nat)
    requires x * k != y * k
    ensures Abs(x * k - y * k) >= k
  {
    ScaledGap(x, y, k);
    if x != y { MulMonotone(1, Abs(x - y), k); }
  }

  lemma SmallerTerm(m1: nat, m2: nat, u: nat, w: nat)
    requires m2 < 2 * m1 && w <= u
    ensures m2 * w + u <= 2 * m1 * u
  {
    MulMonotone(w, u, m2);
    MulMonotone(m2 + 1, 2 * m1, u);
    Distribute(m2, 1, u);
  }

  // Every in-range sum is within (2^(g-1) + 2) / 2^g units in the last place of the exact one:
  // 17/32 for single, 129/256 for double.
  lemma SumError(f: Format, a: nat, b: nat)
    requires f.p >= 2 && f.g >= 3 && AddsInRange(f, a, b)
    ensures var r := AddWords(f, a, b);
      && Normal(f, r)
      && Abs(ExactSum(f, a, b) - Value(f, r)) * Pow2(f.g) < Pow2(Exp(f, r)) * (Pow2(f.g - 1) + 2)
    decreases Exp(f, b)
  {
    hide Pow2, Value, AddWords;
    if Exp(f, a) < Exp(f, b) {
      SumCommutes(f, a, b);
      SumError(f, b, a);
    } else if Far(f, a, b) {
      FarSumError(f, a, b);
    } else {
      NearSumError(f, a, b);
    }
  }

  lemma FarSumError(f: Format, a: nat, b: nat)
    requires f.p >= 2 && f.g >= 3 && Normal(f, a) && Normal(f, b) && Exp(f, a) > Exp(f, b) + f.p + 1
    ensures AddWords(f, a, b) == a
    ensures Abs(Value(f, b)) * Pow2(f.g) < (Pow2(f.g - 1) + 2) * Pow2(Exp(f, a))
  {
    hide Pow2;
    NormalIsNonZero(f, a);
    NormalIsNonZero(f, b);
    SmallAddend(f, b, Exp(f, a));
    EightUnits(f.g);
    var u, h := Pow2(Exp(f, a)), Pow2(f.g - 1);
    MulMonotone(2 * Abs(Value(f, b)), u, h);
    Associate(2, Abs(Value(f, b)), h);
    assert Abs(Value(f, b)) * (2 * h) == 2 * (Abs(Value(f, b)) * h);
    Distribute(h, 2, u);
  }

  lemma NearSumError(f: Format, a: nat, b: nat)
    requires f.p >= 2 && f.g >= 3 && AddsInRange(f, a, b) && Exp(f, a) >= Exp(f, b) && !Far(f, a, b)
    ensures var r := AddWords(f, a, b);
      && Normal(f, r)
      && Abs(ExactSum(f, a, b) - Value(f, r)) * Pow2(f.g) < Pow2(Exp(f, r)) * (Pow2(f.g - 1) + 2)
  {
    hide Pow2, AddWords, Mant, Sign, Exp, Normal, InRange, RoundedMant, PackRounded, Magnitude, ExactSum, Value;
    var x := ExactSum(f, a, b);
    var w := SumIsPacked(f, a, b);
    RoundUpIsNearestEven(f, w.mant);
    PackRoundedFields(f, x < 0, w.exp, RoundedMant(f, w.mant));
    PackedError(f, x, w.mant, w.exp, RoundedMant(f, w.mant), AddWords(f, a, b));
  }

  lemma PackedError(f: Format, x: int, v: nat, e: nat, m: nat, r: nat)
    requires f.p >= 1 && f.g >= 3
    requires Abs(Abs(x) * Pow2(f.g) - v * Pow2(e)) < 2 * Pow2(e) && 2 * Abs(v - m * Pow2(f.g)) <= Pow2(f.g)
    requires Sign(f, r) == (x < 0) && Magnitude(f, r) == m * Pow2(e) && Exp(f, r) >= e
    ensures Abs(x - Value(f, r)) * Pow2(f.g) < Pow2(Exp(f, r)) * (Pow2(f.g - 1) + 2)
  {
    hide Pow2, Sign, Magnitude, Exp, Value, Abs;
    EightUnits(f.g);
    SignedGap(f, x, r);
    MagnitudeError(Abs(x), Magnitude(f, r), v, m, Pow2(f.g), Pow2(f.g - 1), Pow2(e));
    Pow2Monotone(e, Exp(f, r));
    MulMonotone(Pow2(e), Pow2(Exp(f, r)), Pow2(f.g - 1) + 2);
  }

  lemma SignedGap(f: Format, x: int, r: nat)
    requires f.p >= 1 && Sign(f, r) == (x < 0)
    ensures Abs(x - Value(f, r)) == Abs(Abs(x) - Magnitude(f, r))
  {}

  lemma MagnitudeError(x: nat, mag: nat, v: nat, m: nat, g: nat, half: nat, u: nat)
    requires u > 0 && g == 2 * half && mag == m * u
    requires Abs(x * g - v * u) < 2 * u && 2 * Abs(v - m * g) <= g
    ensures Abs(x - mag) * g < u * (half + 2)
  {
    RoundingError(x * g, v, m, g, u);
    ScaledGap(x, mag, g);
  }

  lemma RoundingError(y: nat, v: nat, m: nat, g: nat, u: nat)
    requires u > 0 && Abs(y - v * u) < 2 * u && 2 * Abs(v - m * g) <= g && g % 2 == 0
    ensures Abs(y - m * u * g) < (g / 2 + 2) * u
  {
    Associate(m, u, g);
    Associate(m, g, u);
    ScaledGap(v, m * g, u);
    MulMonotone(Abs(v - m * g), g / 2, u);
    Distribute(g / 2, 2, u);
  }
}

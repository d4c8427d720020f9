/**
 Exactly when __addsf3 and __adddf3 round correctly. What alignment and normalisation drop can turn a sum just
 beside a half-way point into an apparent tie; the rounding step then follows the parity rule where it should
 not. That is the only way the result can be wrong.
 */
module FloatAdditionExact {
  import opened PowersOfTwo
  import opened FloatFormat
  import opened FloatRounding
  import opened FloatAddition
  import opened FloatAdditionError

  // ---------------------------------------------------------------- what is dropped

  // The bits of the smaller operand that alignment shifts out.
  function Lost(f: Format, a: nat, b: nat): nat
    requires f.p >= 1 && Exp(f, a) >= Exp(f, b)
  {
    Guarded(f, b) % Pow2(Exp(f, a) - Exp(f, b))
  }

  // The carry is shifted down and takes a bit along.
  predicate Halved(f: Format, s: int) {
    Abs(s) >= Pow2(f.p + f.g) && s % 2 == 1
  }

  // The exact magnitude lies above, below, what is left to round.
  predicate DroppedAbove(f: Format, a: nat, b: nat)
    requires f.p >= 1 && Exp(f, a) >= Exp(f, b)
  {
    var s := AlignedSum(f, a, b);
    Halved(f, s) || (s > 0 && Lost(f, a, b) > 0)
  }

  predicate DroppedBelow(f: Format, a: nat, b: nat)
    requires f.p >= 1 && Exp(f, a) >= Exp(f, b)
  {
    var s := AlignedSum(f, a, b);
    !Halved(f, s) && s < 0 && Lost(f, a, b) > 0
  }

  // What the rounding step is given.
  function Normalized(f: Format, a: nat, b: nat): Wide
    requires f.p >= 1 && AlignedSum(f, a, b) != 0
  {
    NormalizeDown(f, NormalizeUp(f, Wide(Abs(AlignedSum(f, a, b)), Exp(f, a))))
  }

  // An apparent tie that the dropped bits decide against the parity rule.
  predicate FalseTie(f: Format, a: nat, b: nat)
    requires f.p >= 1 && f.g >= 1 && Exp(f, a) >= Exp(f, b)
  {
    AlignedSum(f, a, b) != 0 &&
    var v := Normalized(f, a, b).mant;
    && v % Pow2(f.g) == Pow2(f.g - 1)
    && if v / Pow2(f.g) % 2 == 0 then DroppedAbove(f, a, b) else DroppedBelow(f, a, b)
  }

  predicate Misrounds(f: Format, a: nat, b: nat)
    requires f.p >= 1 && f.g >= 1
  {
    !Far(f, a, b) && if Exp(f, a) >= Exp(f, b) then FalseTie(f, a, b) else FalseTie(f, b, a)
  }

  // y, in guard units, against what is rounded: how far apart, and on which side.
  ghost predicate Offset(y: nat, v: nat, e: nat, above: bool, below: bool) {
    var off := y - v * Pow2(e);
    && (above <==> off > 0) && (below <==> off < 0)
    && Abs(off) < 2 * Pow2(e) && (v % 2 == 1 ==> Abs(off) < Pow2(e))
  }

  lemma SumWithLost(f: Format, a: nat, b: nat)
    requires f.p >= 1 && Exp(f, a) >= Exp(f, b)
    ensures var s, lost := AlignedSum(f, a, b), Lost(f, a, b) * Pow2(Exp(f, b));
      && ExactSum(f, a, b) * Pow2(f.g) == s * Pow2(Exp(f, a)) + lost
      && 0 <= lost < Pow2(Exp(f, a)) && (lost > 0 <==> Lost(f, a, b) > 0)
  {
    hide Pow2, Value, Guarded;
    Pow2Zero();
    var k, e := Exp(f, a) - Exp(f, b), Exp(f, b);
    assert AlignedSum(f, a, b) == Guarded(f, a) + Guarded(f, b) / Pow2(k);
    GuardedValue(f, a);
    GuardedValue(f, b);
    Distribute(Value(f, a), Value(f, b), Pow2(f.g));
    ShiftLoss(Guarded(f, a), Guarded(f, b), k, e);
    MulCancel(0, Lost(f, a, b), Pow2(e));
  }

  // Normalisation of n units at exponent e, standing for y, which is rho away.
  lemma OffsetOfNormalized(f: Format, n: nat, e: nat, y: nat, rho: int, k: nat)
    requires f.p >= 1 && 0 < n < 4 * Top(f) && y == n * Pow2(e) + rho && Abs(rho) < Pow2(e)
    requires NormalizeUp(f, Wide(n, e)) == Wide(n * Pow2(k), e - k) && k <= e
    requires n * Pow2(k) >= Top(f) && (k > 0 ==> n * Pow2(k) < 2 * Top(f))
    requires k > 1 ==> rho == 0
    ensures var w := NormalizeDown(f, NormalizeUp(f, Wide(n, e))); var carried := n >= Pow2(f.p + f.g) && n % 2 == 1;
      w.exp >= 0 && Offset(y, w.mant, w.exp, carried || rho > 0, !carried && rho < 0)
  {
    hide Pow2, Top, Offset, NormalizeUp;
    TopFacts(f);
    Pow2Zero();
    if k > 0 {
      assert n < 2 * Top(f) by { MulMonotone(1, Pow2(k), n); }
      RaisedOffset(n, e, y, rho, k);
    } else if n >= 2 * Top(f) {
      HalfOffset(n, e, y, rho);
    } else {
      SameOffset(n, e, y, rho);
    }
  }

  lemma RaisedOffset(n: nat, e: nat, y: nat, rho: int, k: nat)
    requires 0 < k <= e && y == n * Pow2(e) + rho && Abs(rho) < Pow2(e) && (k > 1 ==> rho == 0)
    ensures Offset(y, n * Pow2(k), e - k, rho > 0, rho < 0)
  {
    hide Pow2, Offset;
    var half, v := n * Pow2(k - 1), n * Pow2(k);
    assert v == 2 * half by { NextPower(n, k - 1); Associate(2, n, Pow2(k - 1)); }
    assert n * Pow2(e) == v * Pow2(e - k) by { TwoFactors(n, k, e - k, e); }
    assert Abs(rho) < 2 * Pow2(e - k) by { if k == 1 { NextPower(1, e - 1); } }
    EvenOffset(y, half, v, e - k, rho);
  }

  lemma EvenOffset(y: nat, half: int, v: nat, e: nat, rho: int)
    requires v == 2 * half && y == v * Pow2(e) + rho && Abs(rho) < 2 * Pow2(e)
    ensures Offset(y, v, e, rho > 0, rho < 0)
  {
    hide Pow2;
  }

  lemma SameOffset(n: nat, e: nat, y: nat, rho: int)
    requires y == n * Pow2(e) + rho && Abs(rho) < Pow2(e)
    ensures Offset(y, n, e, rho > 0, rho < 0)
  {
    hide Pow2;
  }

  lemma HalfOffset(n: nat, e: nat, y: nat, rho: int)
    requires y == n * Pow2(e) + rho && Abs(rho) < Pow2(e)
    ensures Offset(y, n / 2, e + 1, n % 2 == 1 || rho > 0, n % 2 == 0 && rho < 0)
    ensures Abs(y - n / 2 * Pow2(e + 1)) < Pow2(e + 1)
  {
    hide Pow2;
    NextPower(n / 2, e);
    NextPower(1, e);
    assert n == 2 * (n / 2) + n % 2;
    Distribute(2 * (n / 2), n % 2, Pow2(e));
  }

  // The offset of the exact sum from what is rounded, read off the operands' bits.
  lemma SumOffset(f: Format, a: nat, b: nat)
    requires f.p >= 2 && f.g >= 3 && AddsInRange(f, a, b) && Exp(f, a) >= Exp(f, b) && !Far(f, a, b)
    ensures AlignedSum(f, a, b) != 0
    ensures var w := Normalized(f, a, b);
      w.exp >= 0 && Offset(GuardedSum(f, a, b), w.mant, w.exp, DroppedAbove(f, a, b), DroppedBelow(f, a, b))
  {
    hide Pow2, AlignedSum, Lost, ExactSum, Normal, InRange, NormalizeUp, NormalizeDown, Exp, Offset, DroppedAbove,
      DroppedBelow, Top, Far;
    var s, e := AlignedSum(f, a, b), Exp(f, a);
    var lost: int := Lost(f, a, b) * Pow2(Exp(f, b));
    SumWithLost(f, a, b);
    var _ := SumIsPacked(f, a, b);
    SignedMagnitude(ExactSum(f, a, b), s, Pow2(f.g), Pow2(e), lost);
    var rho := if s > 0 then lost else -lost;
    var k := Raise(f, a, b);
    SumSizes(f, a, b);
    NothingLost(Lost(f, a, b), Pow2(Exp(f, b)));
    OffsetOfNormalized(f, Abs(s), e, GuardedSum(f, a, b), rho, k);
    DroppedSides(f, a, b, rho);
  }

  lemma NothingLost(l: nat, u: nat)
    ensures l == 0 ==> l * u == 0
  {}

  lemma DroppedSides(f: Format, a: nat, b: nat, rho: int)
    requires f.p >= 1 && Exp(f, a) >= Exp(f, b) && AlignedSum(f, a, b) != 0
    requires rho > 0 <==> AlignedSum(f, a, b) > 0 && Lost(f, a, b) > 0
    requires rho < 0 <==> AlignedSum(f, a, b) < 0 && Lost(f, a, b) > 0
    ensures var n := Abs(AlignedSum(f, a, b)); var carried := n >= Pow2(f.p + f.g) && n % 2 == 1;
      && (DroppedAbove(f, a, b) <==> carried || rho > 0)
      && (DroppedBelow(f, a, b) <==> !carried && rho < 0)
  {
    hide Pow2, AlignedSum, Lost, Exp;
  }

  lemma SignedMagnitude(x: int, s: int, g: nat, b: nat, lost: int)
    requires x * g == s * b + lost && s != 0 && (s < 0 <==> x < 0)
    ensures Abs(x) * g == Abs(s) * b + (if s > 0 then lost else -lost)
  {
    AbsScale(x, g);
    AbsScale(s, b);
    if s < 0 {
      NegatedProduct(x, g);
      NegatedProduct(s, b);
    }
  }

  // How far the sum is shifted up: one place at most when bits were lost.
  lemma Raise(f: Format, a: nat, b: nat) returns (k: nat)
    requires f.p >= 2 && f.g >= 3 && AddsInRange(f, a, b) && Exp(f, a) >= Exp(f, b) && !Far(f, a, b)
    requires AlignedSum(f, a, b) != 0
    ensures var n, e := Abs(AlignedSum(f, a, b)), Exp(f, a);
      && NormalizeUp(f, Wide(n, e)) == Wide(n * Pow2(k), e - k) && k <= e
      && n * Pow2(k) >= Top(f) && (k > 0 ==> n * Pow2(k) < 2 * Top(f))
    ensures k > 1 ==> Lost(f, a, b) == 0
  {
    hide Pow2, AlignedSum, Normal, InRange, Top, Exp, ExactSum, NormalizeUp;
    TopFacts(f);
    var n, e := Abs(AlignedSum(f, a, b)), Exp(f, a);
    k := NormalizeUpShape(f, Wide(n, e));
    var w := SumIsPacked(f, a, b);
    SumSizes(f, a, b);
    if Close(f, a, b) {
      GuardedNoLoss(f, b, Exp(f, a) - Exp(f, b));
    } else if k > 1 {
      FourTimes(n, k);
    }
  }

  // ---------------------------------------------------------------- rounding a sum with an offset

  lemma HalfUnit(f: Format)
    requires f.g >= 3
    ensures var half := Pow2(f.g - 1); half >= 4 && half % 2 == 0 && Pow2(f.g) == 2 * half
  {
    EightUnits(f.g);
    assert Pow2(f.g - 1) == 2 * Pow2(f.g - 2);
  }

  lemma RoundedMantIs(f: Format, v: nat)
    requires f.p >= 1 && f.g >= 3 && Top(f) <= v < 2 * Top(f)
    ensures var q, t := v / Pow2(f.g), v % Pow2(f.g); var half := Pow2(f.g - 1);
      && v == q * (2 * half) + t && f.Hidden() <= q < 2 * f.Hidden()
      && RoundedMant(f, v) == if t > half || (t == half && q % 2 == 1) then q + 1 else q
  {
    RoundedMantFormula(f, v);
    hide *;
    HalfUnit(f);
    TopFacts(f);
    RoundDigits(v, Pow2(f.g - 1), Pow2(f.g), f.Hidden());
  }

  lemma RoundedMantFormula(f: Format, v: nat)
    requires f.g >= 1
    ensures RoundedMant(f, v) == (v + Pow2(f.g - 1) - (if v / Pow2(f.g) % 2 == 1 then 0 else 1)) / Pow2(f.g)
  {
    hide Pow2;
  }

  lemma RoundDigits(v: nat, half: nat, g: nat, h: nat)
    requires half >= 2 && g == 2 * half && h * g <= v < 2 * (h * g)
    ensures var q, t := v / g, v % g;
      && v == q * (2 * half) + t && h <= q < 2 * h
      && (v + half - (if q % 2 == 1 then 0 else 1)) / g == (if t > half || (t == half && q % 2 == 1) then q + 1 else q)
  {
    QuotientBetween(v, g, h);
    assert v == v / g * g + v % g;
    RoundChoice(v, half, v / g, v % g);
  }

  predicate Wrong(q: int, t: int, half: int, above: bool, below: bool) {
    t == half && if q % 2 == 0 then above else below
  }

  // With off the exact remainder beyond t units: m is nearest even, unless the tie is a false one.
  lemma NearestEvenMultiple(q: nat, t: nat, half: nat, u: nat, off: int, m: nat)
    requires u > 0 && half >= 4 && half % 2 == 0 && t < 2 * half && Abs(off) < 2 * u && (t % 2 == 1 ==> Abs(off) < u)
    requires m == if t > half || (t == half && q % 2 == 1) then q + 1 else q
    requires !Wrong(q, t, half, off > 0, off < 0)
    ensures var rest := if m == q then t * u + off else t * u - 2 * half * u + off;
      2 * Abs(rest) <= 2 * half * u && (2 * Abs(rest) == 2 * half * u ==> m % 2 == 0)
  {
    Associate(2, half, u);
    MulMonotone(4, half, u);
    if t < half {
      BelowHalf(t, half, u, off);
    } else if t > half {
      AboveHalf(t, half, u, off);
    }
  }

  lemma BelowHalf(t: nat, half: nat, u: nat, off: int)
    requires half % 2 == 0 && half >= 4 && t < half && Abs(off) < 2 * u && (t % 2 == 1 ==> Abs(off) < u)
    ensures 0 - half * u < t * u + off < half * u
  {
    MulMonotone(4, half, u);
    if t == half - 1 {
      Distribute(half, -1, u);
    } else {
      MulMonotone(t, half - 2, u);
      Distribute(half, -2, u);
    }
  }

  lemma AboveHalf(t: nat, half: nat, u: nat, off: int)
    requires half % 2 == 0 && half >= 4 && half < t < 2 * half && Abs(off) < 2 * u && (t % 2 == 1 ==> Abs(off) < u)
    ensures 0 - half * u < t * u - 2 * half * u + off < half * u
  {
    MulMonotone(4, half, u);
    Associate(2, half, u);
    MulMonotone(t, 2 * half - 1, u);
    Distribute(2 * half, -1, u);
    if t == half + 1 {
      Distribute(half, 1, u);
    } else {
      MulMonotone(half + 2, t, u);
      Distribute(half, 2, u);
    }
  }

  // In a false tie the other neighbour is strictly nearer.
  lemma OtherIsNearer(q: nat, half: nat, u: nat, off: int)
    requires u > 0 && half >= 4 && Abs(off) < 2 * u
    ensures off > 0 ==> Abs(half * u - 2 * half * u + off) < Abs(half * u + off)
    ensures off < 0 ==> Abs(half * u + off) < Abs(half * u - 2 * half * u + off)
  {
    MulMonotone(4, half, u);
    Associate(2, half, u);
  }

  // The distance of y from m multiples of 2 * half * u.
  lemma FromMultiple(y: nat, v: nat, q: nat, t: nat, half: nat, u: nat, off: int)
    requires y == v * u + off && v == q * (2 * half) + t
    ensures y - q * u * (2 * half) == t * u + off
    ensures y - (q + 1) * u * (2 * half) == t * u - 2 * half * u + off
  {
    var g := 2 * half;
    Distribute(q * g, t, u);
    Associate(q, g, u);
    Associate(q, u, g);
    Distribute(q, 1, u * g);
    Associate(q + 1, u, g);
  }

  lemma OddWith(v: nat, q: nat, t: nat, half: nat)
    requires v == q * (2 * half) + t
    ensures v % 2 == t % 2
  {
    assert v == 2 * (q * half) + t;
  }

  // ---------------------------------------------------------------- words

  // A word within a quarter of its unit is the nearest one.
  lemma QuarterUnitIsNearest(f: Format, x: int, r: nat)
    requires f.p >= 2 && Normal(f, r) && 4 * Abs(x - Value(f, r)) < Pow2(Exp(f, r))
    ensures IsNearest(f, x, 1, r)
  {
    hide Pow2, Value;
    forall c | Normal(f, c) && c != r
      ensures Abs(x - Value(f, r) * 1) < Abs(x - Value(f, c) * 1)
    {
      WordsAreApart(f, r, c);
    }
  }

  // Distances of words in guard units.
  lemma WordDistance(f: Format, x: int, e: nat, m: nat)
    requires f.p >= 2 && f.Hidden() <= m <= Pow2(f.p) && 1 <= e && (if m == Pow2(f.p) then e + 1 else e) <= f.MaxExp()
    ensures var r := PackRounded(f, x < 0, e, m);
      Normal(f, r) && Abs(x - Value(f, r)) * Pow2(f.g) == Abs(Abs(x) * Pow2(f.g) - m * Pow2(e) * Pow2(f.g))
  {
    hide Pow2, Sign, Exp, Mant, Magnitude, Value, PackRounded, Abs;
    var r := PackRounded(f, x < 0, e, m);
    PackRoundedFields(f, x < 0, e, m);
    SignedGap(f, x, r);
    ScaledGap(Abs(x), m * Pow2(e), Pow2(f.g));
  }

  // What is known of a sum about to be rounded.
  ghost predicate Rounding(f: Format, x: int, v: nat, e: nat, above: bool, below: bool) {
    && f.p >= 2 && f.g >= 3 && Top(f) <= v < 2 * Top(f) && 1 <= e
    && Offset(Abs(x) * Pow2(f.g), v, e, above, below)
    && f.Hidden() <= RoundedMant(f, v) <= Pow2(f.p)
    && (if RoundedMant(f, v) == Pow2(f.p) then e + 1 else e) <= f.MaxExp()
  }

  ghost predicate WrongFor(f: Format, v: nat, above: bool, below: bool)
    requires f.g >= 1
  {
    Wrong(v / Pow2(f.g), v % Pow2(f.g), Pow2(f.g - 1), above, below)
  }

  lemma RoundedWithinHalf(f: Format, x: int, v: nat, e: nat, above: bool, below: bool)
    requires Rounding(f, x, v, e, above, below) && !WrongFor(f, v, above, below)
    ensures var y, m, d := Abs(x) * Pow2(f.g), RoundedMant(f, v), Pow2(f.g) * Pow2(e);
      2 * Abs(y - m * d) <= d && (2 * Abs(y - m * d) == d ==> m % 2 == 0)
  {
    hide Pow2, Top, RoundedMant, Abs;
    var y, m, u, half := Abs(x) * Pow2(f.g), RoundedMant(f, v), Pow2(e), Pow2(f.g - 1);
    var q, t, off := v / Pow2(f.g), v % Pow2(f.g), y - v * Pow2(e);
    HalfUnit(f);
    RoundedMantIs(f, v);
    OddWith(v, q, t, half);
    NearestEvenMultiple(q, t, half, u, off, m);
    FromMultiple(y, v, q, t, half, u, off);
    Associate(m, u, 2 * half);
  }

  // Just below the smallest mantissa of its exponent a number has nearer neighbours, but it is nearest all the same.
  lemma BelowBinade(f: Format, x: int, v: nat, e: nat, above: bool, below: bool)
    requires Rounding(f, x, v, e, above, below) && Abs(x) * Pow2(f.g) < Top(f) * Pow2(e)
    ensures IsNearest(f, x, 1, PackRounded(f, x < 0, e, RoundedMant(f, v)))
  {
    hide Pow2, PackRounded, RoundedMant, Normal, Value, Exp, IsNearest;
    TopFacts(f);
    HalfUnit(f);
    var g, u, h := Pow2(f.g), Pow2(e), f.Hidden();
    var t := Top(f);
    EvenTop(f);
    AtBinade(Abs(x) * g, v, t, u);
    QuotientUnique(v, g, h, 0);
    RoundedMantIs(f, v);
    Associate(h, u, g);
    Associate(h, g, u);
    var r := PackRounded(f, x < 0, e, h);
    WordDistance(f, x, e, h);
    PackRoundedFields(f, x < 0, e, h);
    QuarterGap(Abs(x - Value(f, r)), g, u);
    QuarterUnitIsNearest(f, x, r);
  }

  lemma EvenTop(f: Format)
    requires f.p >= 1 && f.g >= 1
    ensures Top(f) % 2 == 0
  {}

  // At most two units below, a mantissa above the smallest would leave the number above it, unless by one.
  lemma AtBinade(y: nat, v: nat, t: nat, u: nat)
    requires t <= v && y < t * u && Abs(y - v * u) < 2 * u && (v % 2 == 1 ==> Abs(y - v * u) < u) && t % 2 == 0 && u > 0
    ensures v == t && Abs(y - t * u) < 2 * u
  {
    if v >= t + 2 { MulMonotone(t + 2, v, u); Distribute(t, 2, u); }
    if v == t + 1 { Distribute(t, 1, u); }
  }

  lemma QuarterGap(gap: nat, g: nat, u: nat)
    requires gap * g < 2 * u && g >= 8
    ensures 4 * gap < u
  {
    MulMonotone(8, g, gap);
  }

  lemma RightlyRounded(f: Format, x: int, v: nat, e: nat, above: bool, below: bool)
    requires Rounding(f, x, v, e, above, below) && !WrongFor(f, v, above, below)
    ensures IsNearestEven(f, x, 1, PackRounded(f, x < 0, e, RoundedMant(f, v)))
  {
    hide Pow2, PackRounded, RoundedMant, Normal, Value, IsNearestEven, IsNearest, Offset, WrongFor, Top;
    var g, u, m := Pow2(f.g), Pow2(e), RoundedMant(f, v);
    TopFacts(f);
    var r, k, y := PackRounded(f, x < 0, e, m), g * u, Abs(x) * g;
    if y < Top(f) * u {
      BelowBinade(f, x, v, e, above, below);
      NearestIsNearestEven(f, x, 1, r);
    } else {
      RoundedWithinHalf(f, x, v, e, above, below);
      MulStrict(0, g, u);
      Associate(f.Hidden(), g, u);
      Associate(Abs(x), g, u);
      NegatedProduct(Abs(x), k);
      RoundedIsNearest(f, x < 0, y, k, e, m, x * k);
      UnscaleNearestEven(f, x, k, r);
    }
  }

  lemma NearestIsNearestEven(f: Format, x: int, y: nat, r: int)
    requires f.p >= 1 && IsNearest(f, x, y, r)
    ensures IsNearestEven(f, x, y, r)
  {
    hide Value, Pow2;
  }

  lemma WronglyRounded(f: Format, x: int, v: nat, e: nat, above: bool, below: bool)
    requires Rounding(f, x, v, e, above, below) && WrongFor(f, v, above, below)
    ensures !IsNearestEven(f, x, 1, PackRounded(f, x < 0, e, RoundedMant(f, v)))
  {
    hide Pow2, PackRounded, RoundedMant, Normal, Value, Top, Abs;
    var g, u, m, half := Pow2(f.g), Pow2(e), RoundedMant(f, v), Pow2(f.g - 1);
    var q, y := v / g, Abs(x) * g;
    TopFacts(f);
    HalfUnit(f);
    RoundedMantIs(f, v);
    var other := 2 * q + 1 - m;
    OtherIsNearer(q, half, u, y - v * u);
    FromMultiple(y, v, q, half, half, u, y - v * u);
    WordDistance(f, x, e, m);
    WordDistance(f, x, e, other);
    var r, c := PackRounded(f, x < 0, e, m), PackRounded(f, x < 0, e, other);
    MulCancel(Abs(x - Value(f, c)), Abs(x - Value(f, r)), g);
  }

  // The sum of two normal words is round-to-nearest-even exactly when it does not end in a false tie.
  lemma OrderedSumIsExact(f: Format, a: nat, b: nat)
    requires f.p >= 2 && f.g >= 3 && AddsInRange(f, a, b) && Exp(f, a) >= Exp(f, b) && !Far(f, a, b)
    ensures IsNearestEven(f, ExactSum(f, a, b), 1, AddWords(f, a, b)) <==> !FalseTie(f, a, b)
  {
    hide Pow2, AlignedSum, ExactSum, Normal, InRange, NormalizeUp, NormalizeDown, Exp, Offset, DroppedAbove,
      DroppedBelow,
      Top, Far, IsNearestEven, PackRounded, RoundedMant, AddWords;
    var x, above, below := ExactSum(f, a, b), DroppedAbove(f, a, b), DroppedBelow(f, a, b);
    var w := SumIsPacked(f, a, b);
    SumOffset(f, a, b);
    if WrongFor(f, w.mant, above, below) {
      WronglyRounded(f, x, w.mant, w.exp, above, below);
    } else {
      RightlyRounded(f, x, w.mant, w.exp, above, below);
    }
  }

  // In either order, and whatever the exponents.
  lemma RoundingIsExact(f: Format, a: nat, b: nat)
    requires f.p >= 2 && 3 <= f.g <= f.p && AddsInRange(f, a, b)
    ensures IsNearestEven(f, ExactSum(f, a, b), 1, AddWords(f, a, b)) <==> !Misrounds(f, a, b)
  {
    hide Pow2, AlignedSum, ExactSum, Normal, InRange, Exp, FalseTie, IsNearestEven, AddWords, IsNearest;
    if Far(f, a, b) {
      FarSumIsNearest(f, a, b);
      NearestIsNearestEven(f, ExactSum(f, a, b), 1, AddWords(f, a, b));
    } else if Exp(f, a) >= Exp(f, b) {
      OrderedSumIsExact(f, a, b);
    } else {
      SumCommutes(f, a, b);
      OrderedSumIsExact(f, b, a);
    }
  }
}

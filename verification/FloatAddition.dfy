/** __addsf3 and __adddf3: alignment, normalisation and rounding of sums. */
module FloatAddition {
  import opened PowersOfTwo
  import opened FloatFormat
  import opened FloatRounding

  // A magnitude with its guard bits, and the exponent it belongs to.
  datatype Wide = Wide(mant: nat, exp: int)

  function Guarded(f: Format, w: nat): int
    requires f.p >= 1
  {
    var m: int := Mant(f, w) * Pow2(f.g);
    if Sign(f, w) then -m else m
  }

  // The sum of the two mantissas at the larger exponent; shifting right rounds toward minus infinity.
  function AlignedSum(f: Format, a: nat, b: nat): int
    requires f.p >= 1
  {
    var e1, e2 := Exp(f, a), Exp(f, b);
    if e1 > e2 then Guarded(f, a) + Guarded(f, b) / Pow2(e1 - e2)
    else Guarded(f, a) / Pow2(e2 - e1) + Guarded(f, b)
  }

  // Shift left until the top bit is reached.
  function NormalizeUp(f: Format, w: Wide): (r: Wide)
    requires f.p >= 1 && w.mant > 0
    decreases Pow2(f.p + f.g - 1) - w.mant
  {
    if w.mant >= Pow2(f.p + f.g - 1) then w
    else NormalizeUp(f, Wide(2 * w.mant, w.exp - 1))
  }

  function NormalizeDown(f: Format, w: Wide): Wide {
    if w.mant >= Pow2(f.p + f.g) then Wide(w.mant / 2, w.exp + 1) else w
  }

  // Half a unit, or just less when the last kept bit is clear, so that ties go to even.
  function RoundUp(f: Format, mant: nat): nat
    requires f.g >= 1
  {
    mant + Pow2(f.g - 1) - (if mant / Pow2(f.g) % 2 == 1 then 0 else 1)
  }

  function Finish(f: Format, sign: bool, w: Wide): nat
    requires f.p >= 1 && f.g >= 1
  {
    var r := NormalizeDown(f, w.(mant := RoundUp(f, w.mant)));
    Pack(f, sign, r.exp, r.mant / Pow2(f.g) % f.Hidden())
  }

  function AddWords(f: Format, a: nat, b: nat): nat
    requires f.p >= 1 && f.g >= 1
  {
    var e1, e2 := Exp(f, a), Exp(f, b);
    if a == 0 then b
    else if b == 0 then a
    else if e1 > e2 + f.p + 1 then a
    else if e2 > e1 + f.p + 1 then b
    else
      FinishSum(f, AlignedSum(f, a, b), Max(e1, e2))
  }

  function FinishSum(f: Format, sum: int, e: nat): nat
    requires f.p >= 1 && f.g >= 1
  {
    if sum == 0 then 0
    else Finish(f, sum < 0, NormalizeDown(f, NormalizeUp(f, Wide(Abs(sum), e))))
  }

  function Max(x: int, y: int): (r: int)
    ensures r >= x && r >= y
  {
    if x > y then x else y
  }

  // ---------------------------------------------------------------- sizes

  // The value of the lowest bit of a normalised mantissa with its guard bits: 2^(p+g-1) <= mant < 2^(p+g).
  function Top(f: Format): nat
    requires f.p >= 1
  {
    Pow2(f.p + f.g - 1)
  }

  lemma TopFacts(f: Format)
    requires f.p >= 1
    ensures Top(f) == f.Hidden() * Pow2(f.g) && Pow2(f.p + f.g) == 2 * Top(f) && Pow2(f.p) == 2 * f.Hidden()
  {
    Pow2Sum(f.p - 1, f.g);
  }

  lemma GuardedValue(f: Format, w: nat)
    requires f.p >= 1
    ensures Value(f, w) * Pow2(f.g) == Guarded(f, w) * Pow2(Exp(f, w))
    ensures Abs(Guarded(f, w)) == Mant(f, w) * Pow2(f.g)
  {
    hide Pow2;
    var m, e, g := Mant(f, w), Pow2(Exp(f, w)), Pow2(f.g);
    Associate(m, e, g);
    Associate(m, g, e);
    NegatedProduct(m * e, g);
    NegatedProduct(m * g, e);
  }

  lemma GuardedBounds(f: Format, w: nat)
    requires f.p >= 1
    ensures Top(f) <= Abs(Guarded(f, w)) < 2 * Top(f)
  {
    hide Pow2;
    GuardedValue(f, w);
    MantBounds(f, w);
    TopFacts(f);
    MulMonotone(f.Hidden(), Mant(f, w), Pow2(f.g));
    MulStrict(Mant(f, w), 2 * f.Hidden(), Pow2(f.g));
    Associate(2, f.Hidden(), Pow2(f.g));
  }

  lemma Distribute(x: int, y: int, k: int)
    ensures (x + y) * k == x * k + y * k
  {}

  lemma ShiftedSize(x: int, k: nat, t: nat)
    requires Abs(x) < 2 * t
    ensures -2 * t < x / Pow2(k) < 2 * t
  {
    hide Pow2;
    FloorSize(x, Pow2(k));
  }

  lemma FloorSize(x: int, d: nat)
    requires d >= 1
    ensures x >= 0 ==> 0 <= x / d <= x
    ensures x < 0 ==> x <= x / d < 0
  {
    var q := x / d;
    assert x == q * d + x % d;
    if q >= 0 {
      MulMonotone(1, d, q);
    } else {
      MulMonotone(1, d, -(q + 1));
      Distribute(-q, -1, d);
      NegatedProduct(q, d);
    }
  }

  // No sum of aligned operands reaches the sign bit of the word.
  lemma SumFits(f: Format, a: nat, b: nat)
    requires f.p >= 1
    ensures Abs(AlignedSum(f, a, b)) < 4 * Top(f) == Pow2(f.bits - 1)
  {
    assert Pow2(f.bits - 1) == 2 * Pow2(f.p + f.g);
    hide Guarded, Pow2, Exp, Top;
    TopFacts(f);
    GuardedBounds(f, a);
    GuardedBounds(f, b);
    if Exp(f, a) > Exp(f, b) {
      ShiftedSize(Guarded(f, b), Exp(f, a) - Exp(f, b), Top(f));
    } else {
      ShiftedSize(Guarded(f, a), Exp(f, b) - Exp(f, a), Top(f));
    }
  }

  // The masks of lines 1010 and 1681: the top three bits of the word.
  predicate TopBitsClear(f: Format, mant: nat)
    requires f.p >= 1
  {
    mant / Top(f) % 8 == 0
  }

  // The masks of lines 1016 and 1025, one bit, and of lines 1687 and 1696, two bits.
  predicate CarryBits(f: Format, mant: nat)
    requires f.p >= 1
  {
    if f == SINGLE then mant / (2 * Top(f)) % 2 == 1 else mant / (2 * Top(f)) % 4 != 0
  }

  // For a mantissa below the sign bit, testing the bits is comparing.
  lemma TestsCompare(f: Format, mant: nat)
    requires f.p >= 1 && mant < 4 * Top(f)
    ensures TopBitsClear(f, mant) <==> mant < Top(f)
    ensures CarryBits(f, mant) <==> mant >= 2 * Top(f)
  {
    hide Top;
    SmallQuotients(mant, Top(f));
  }

  lemma SmallQuotients(m: nat, t: nat)
    requires t > 0 && m < 4 * t
    ensures m / t == (if m < t then 0 else if m < 2 * t then 1 else if m < 3 * t then 2 else 3)
    ensures m / (2 * t) == if m < 2 * t then 0 else 1
  {
    var q := if m < t then 0 else if m < 2 * t then 1 else if m < 3 * t then 2 else 3;
    QuotientUnique(m, t, q, m - q * t);
    var c := if m < 2 * t then 0 else 1;
    QuotientUnique(m, 2 * t, c, m - c * (2 * t));
  }

  // ---------------------------------------------------------------- the routines

  method Add(f: Format, a: nat, b: nat) returns (r: nat)
    requires f.p >= 2 && f.g >= 1 && IsWord(f, a) && IsWord(f, b) && a != 0 && b != 0
    ensures r == AddWords(f, a, b)
  {
    var exp1, exp2 := Exp(f, a), Exp(f, b);
    if exp1 > exp2 + f.p + 1 { return a; }
    if exp2 > exp1 + f.p + 1 { return b; }

    var mant1: int, mant2: int := Mant(f, a) * Pow2(f.g), Mant(f, b) * Pow2(f.g);
    if Sign(f, a) { mant1 := -mant1; }
    if Sign(f, b) { mant2 := -mant2; }
    var exp: int := exp1;
    if exp1 > exp2 {
      mant2 := mant2 / Pow2(exp1 - exp2);
    } else {
      mant1 := mant1 / Pow2(exp2 - exp1);
      exp := exp2;
    }
    mant1 := mant1 + mant2;
    assert mant1 == AlignedSum(f, a, b);
    SumFits(f, a, b);

    var sign := false;
    if mant1 < 0 {
      mant1 := -mant1;
      sign := true;
    } else if mant1 == 0 {
      return 0;
    }
    r := NormalizeAndRound(f, sign, mant1, exp);
  }

  // Lines 1009-1037: the mantissa never reaches the sign bit.
  method NormalizeAndRound(f: Format, sign: bool, mant0: nat, exp0: int) returns (r: nat)
    requires f.p >= 2 && f.g >= 1 && 0 < mant0 < 4 * Top(f)
    ensures r == Finish(f, sign, NormalizeDown(f, NormalizeUp(f, Wide(mant0, exp0))))
  {
    hide TopBitsClear, CarryBits;
    TopFacts(f);
    var mant1, exp := mant0, exp0;
    ghost var start := Wide(mant0, exp0);
    TestsCompare(f, mant1);
    while TopBitsClear(f, mant1)
      invariant 0 < mant1 < 4 * Top(f) && (TopBitsClear(f, mant1) <==> mant1 < Top(f))
      invariant NormalizeUp(f, Wide(mant1, exp)) == NormalizeUp(f, start)
      decreases Top(f) - mant1
    {
      mant1 := 2 * mant1;
      exp := exp - 1;
      TestsCompare(f, mant1);
    }
    TestsCompare(f, mant1);
    if CarryBits(f, mant1) {
      mant1 := mant1 / 2;
      exp := exp + 1;
    }
    assert Wide(mant1, exp) == NormalizeDown(f, NormalizeUp(f, start));
    HalfBelowTop(f);
    mant1 := mant1 + (if mant1 / Pow2(f.g) % 2 == 1 then Pow2(f.g - 1) else Pow2(f.g - 1) - 1);
    TestsCompare(f, mant1);
    if CarryBits(f, mant1) {
      mant1 := mant1 / 2;
      exp := exp + 1;
    }
    mant1 := mant1 / Pow2(f.g);
    mant1 := mant1 % f.Hidden();
    r := Pack(f, sign, exp, mant1);
  }

  lemma HalfBelowTop(f: Format)
    requires f.p >= 1 && f.g >= 1
    ensures Pow2(f.g - 1) <= Top(f)
  {
    Pow2Monotone(f.g - 1, f.p + f.g - 1);
  }

  method AddSf3(a: nat, b: nat) returns (r: nat)
    requires IsWord(SINGLE, a) && IsWord(SINGLE, b)
    ensures r == AddWords(SINGLE, a, b)
    ensures (b == 0 ==> r == a) && (a == 0 ==> r == b)
  {
    if a == 0 { return b; }
    if b == 0 { return a; }
    r := Add(SINGLE, a, b);
  }

  method AddDf3(a: nat, b: nat) returns (r: nat)
    requires IsWord(DOUBLE, a) && IsWord(DOUBLE, b)
    ensures r == AddWords(DOUBLE, a, b)
    ensures (b == 0 ==> r == a) && (a == 0 ==> r == b)
  {
    if b == 0 { return a; }
    if a == 0 { return b; }
    r := Add(DOUBLE, a, b);
  }

  // The zero word is neutral, on either side and for every other word, normal or not.
  lemma ZeroIsNeutral(f: Format, a: nat)
    requires f.p >= 1 && f.g >= 1
    ensures AddWords(f, a, 0) == a && AddWords(f, 0, a) == a
  {}

  // ---------------------------------------------------------------- commutativity

  // Addition commutes bit for bit on all words, normal or not.
  lemma AddCommutes(f: Format, a: nat, b: nat)
    requires f.p >= 1 && f.g >= 1
    ensures AddWords(f, a, b) == AddWords(f, b, a)
  {
    if Exp(f, a) == Exp(f, b) {
      assert Pow2(0) == 1;
    }
    assert AlignedSum(f, a, b) == AlignedSum(f, b, a);
  }
}

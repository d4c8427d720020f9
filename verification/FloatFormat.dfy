/**
 The packed IEEE words of software/include/libc.h, for single and double precision at once.

 A format is given by its precision p (24 or 53, hidden bit included) and the number g of guard bits the
 routines keep below the mantissa (6 or 9); everything else follows: the word has p + g + 2 bits, the
 exponent field g + 2. Magnitudes are compared as integers: a normal word with mantissa m and exponent
 field e stands for m * 2^e in units of 2^-(EXCESS + p), so no exponent is ever negative.
 */
module FloatFormat {
  import opened PowersOfTwo

  datatype Format = Format(p: nat, g: nat) {
    const bits := p + g + 2

    // EXCESS and EXCESSD.
    function Excess(): nat { Pow2(g + 1) - 2 }

    function MaxExp(): nat { Pow2(g + 2) - 2 }

    // The weight of the hidden bit.
    function Hidden(): nat
      requires p >= 1
    {
      Pow2(p - 1)
    }

    // One in the units of Magnitude.
    function One(): nat { Pow2(Excess() + p) }
  }

  const SINGLE := Format(24, 6)
  const DOUBLE := Format(53, 9)

  predicate IsWord(f: Format, w: int) {
    0 <= w < Pow2(f.bits)
  }

  // SIGN, EXP, MANT (and SIGND, EXPD, MANTD_LL).
  function Sign(f: Format, w: nat): bool { w / Pow2(f.bits - 1) % 2 == 1 }

  function Exp(f: Format, w: nat): nat
    requires f.p >= 1
  {
    w / Pow2(f.p - 1) % Pow2(f.g + 2)
  }

  function Mant(f: Format, w: nat): nat
    requires f.p >= 1
  {
    w % Pow2(f.p - 1) + f.Hidden()
  }

  predicate Normal(f: Format, w: int)
    requires f.p >= 1
  {
    IsWord(f, w) && 1 <= Exp(f, w) <= f.MaxExp()
  }

  // PACK combines its parts with |, PACKD_LL adds the exponent to the sign; they agree unless the exponent
  // has left its field.
  function Pack(f: Format, sign: bool, e: int, frac: nat): nat
    requires f.p >= 1
  {
    var low, high := e % Pow2(f.g + 2), e / Pow2(f.g + 2) % 2;
    var top := if f == SINGLE then (if sign || high == 1 then 1 else 0)
               else ((if sign then 1 else 0) + high) % 2;
    top * Pow2(f.bits - 1) + low * Pow2(f.p - 1) + frac
  }

  function Magnitude(f: Format, w: nat): nat
    requires f.p >= 1
  {
    Mant(f, w) * Pow2(Exp(f, w))
  }

  function Value(f: Format, w: nat): int
    requires f.p >= 1
  {
    var m: int := Magnitude(f, w);
    if Sign(f, w) then -m else m
  }

  lemma MantBounds(f: Format, w: nat)
    requires f.p >= 1
    ensures f.Hidden() <= Mant(f, w) < 2 * f.Hidden() == Pow2(f.p)
  {}

  lemma HiddenIsEven(f: Format)
    requires f.p >= 2
    ensures f.Hidden() % 2 == 0 && Pow2(f.p) == 2 * f.Hidden()
  {
    assert f.Hidden() == 2 * Pow2(f.p - 2);
  }

  // Splitting a word into sign, exponent and fraction by division.
  lemma SplitWord(w: nat, h: nat, x: nat, top: nat, e: nat, frac: nat)
    requires top <= 1 && e < x && frac < h
    requires w == top * (h * x) + e * h + frac
    ensures w < 2 * (h * x)
    ensures w % h == frac && w / h % x == e && w / (h * x) % 2 == top
  {
    Regroup(h, x, top, e, frac);
    QuotientUnique(w, h, top * x + e, frac);
    QuotientUnique(top * x + e, x, top, e);
    QuotientUnique(w, h * x, top, e * h + frac);
  }

  lemma Regroup(h: nat, x: nat, top: nat, e: nat, frac: nat)
    requires e < x && frac < h
    ensures top * (h * x) + e * h + frac == (top * x + e) * h + frac
    ensures e * h + frac < h * x
  {
    assert top * (h * x) == (top * x) * h;
    assert (top * x + e) * h == (top * x) * h + e * h;
    MulMonotone(e + 1, x, h);
    assert (e + 1) * h == e * h + h;
  }

  // Every word is put together from its parts.
  lemma JoinWord(w: nat, h: nat, x: nat)
    requires h > 0 && x > 0 && w < 2 * (h * x)
    ensures w == (w / (h * x) % 2) * (h * x) + (w / h % x) * h + w % h
  {
    JoinParts(w, h, x, w / h, w / h / x, w / h % x, w % h);
  }

  lemma JoinParts(w: nat, h: nat, x: nat, q: nat, top: nat, e: nat, frac: nat)
    requires e < x && frac < h && w == q * h + frac && q == top * x + e
    requires w < 2 * (h * x)
    ensures w / (h * x) % 2 == top && w == top * (h * x) + e * h + frac
  {
    Regroup(h, x, top, e, frac);
    QuotientUnique(w, h * x, top, e * h + frac);
    if top >= 2 { MulMonotone(2, top, h * x); }
  }

  // An in-range result packs to a normal word with exactly these fields.
  lemma PackFields(f: Format, sign: bool, e: int, m: nat)
    requires f.p >= 1 && 1 <= e <= f.MaxExp()
    requires f.Hidden() <= m < Pow2(f.p)
    ensures var w := Pack(f, sign, e, m - f.Hidden());
      && Normal(f, w) && Sign(f, w) == sign && Exp(f, w) == e && Mant(f, w) == m
  {
    var h, x, frac := f.Hidden(), Pow2(f.g + 2), m - f.Hidden();
    var w := Pack(f, sign, e, frac);
    assert Pow2(f.bits - 1) == h * x by { Pow2Sum(f.p - 1, f.g + 2); }
    assert e % x == e && e / x == 0 by { QuotientUnique(e, x, 0, e); }
    SplitWord(w, h, x, if sign then 1 else 0, e, frac);
  }

  // A word is determined by its fields.
  lemma SameFieldsSameWord(f: Format, v: nat, w: nat)
    requires f.p >= 1 && IsWord(f, v) && IsWord(f, w)
    requires Sign(f, v) == Sign(f, w) && Exp(f, v) == Exp(f, w) && Mant(f, v) == Mant(f, w)
    ensures v == w
  {
    var h, x := f.Hidden(), Pow2(f.g + 2);
    assert Pow2(f.bits - 1) == h * x by { Pow2Sum(f.p - 1, f.g + 2); }
    JoinWord(v, h, x);
    JoinWord(w, h, x);
  }

  lemma NormalIsNonZero(f: Format, w: nat)
    requires f.p >= 1 && Normal(f, w)
    ensures w != 0
  {
    hide Pow2;
    QuotientUnique(0, Pow2(f.p - 1), 0, 0);
    QuotientUnique(0, Pow2(f.g + 2), 0, 0);
  }
}

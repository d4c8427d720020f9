/** __mulsf3 and __muldf3: one high and two mixed partial products, the low one dropped. */
module FloatMultiplication {
  import opened PowersOfTwo
  import opened FloatFormat
  import opened FloatRounding

  // Both formats split their mantissas so that the high part fills half a word: 16 + 8 and 32 + 21 bits.
  ghost predicate Splits(f: Format) {
    f == SINGLE || f == DOUBLE
  }

  const LOW_SINGLE: nat := 0x100
  const LOW_DOUBLE: nat := 0x20_0000

  // The width of the low part.
  function LowBits(f: Format): int { f.p - f.bits / 2 }

  // With high parts h1, h2 and low parts l1, l2 in radix h.
  function Combine(h: nat, h1: nat, l1: nat, h2: nat, l2: nat): nat
    requires h > 0
  {
    h1 * h2 + l1 * h2 / h + l2 * h1 / h
  }

  function PartialProducts(h: nat, m1: nat, m2: nat): nat
    requires h > 0
  {
    Combine(h, m1 / h, m1 % h, m2 / h, m2 % h)
  }

  // The product's high bits, its two lowest dropped, between half the top bit and twice it.
  function HighProduct(f: Format, a: nat, b: nat): nat
    requires f.p >= 1 && LowBits(f) >= 0
  {
    PartialProducts(Pow2(LowBits(f)), Mant(f, a), Mant(f, b)) / 4
  }

  function TopBit(f: Format): nat
    requires f.p >= 1
  {
    Pow2(f.p + f.g - 1)
  }

  // Whether the product reached the top bit, which decides how many bits are rounded away.
  predicate Long(f: Format, r: nat)
    requires f.p >= 1
  {
    r / TopBit(f) % 2 == 1
  }

  function ProductMant(f: Format, r: nat): nat
    requires f.p >= 1 && f.g >= 2
  {
    hide Long;
    if Long(f, r) then (r + Pow2(f.g - 1)) / Pow2(f.g) else (r + Pow2(f.g - 2)) / Pow2(f.g - 1)
  }

  function ProductExp(f: Format, a: nat, b: nat, r: nat): int
    requires f.p >= 1
  {
    Exp(f, a) + Exp(f, b) - f.Excess() - (if Long(f, r) then 0 else 1)
  }

  function MulWords(f: Format, a: nat, b: nat): nat
    requires f.p >= 1 && f.g >= 2 && LowBits(f) >= 0
  {
    if a == 0 || b == 0 then 0
    else
      var r := HighProduct(f, a, b);
      var sign := Sign(f, a) != Sign(f, b);
      var m, e := ProductMant(f, r), ProductExp(f, a, b, r);
      if m / Pow2(f.p) % 2 == 1 then Pack(f, sign, e + 1, m / 2 % f.Hidden())
      else Pack(f, sign, e, m % f.Hidden())
  }

  // Multiplication commutes bit for bit on all words, normal or not.
  lemma MulCommutes(f: Format, a: nat, b: nat)
    requires f.p >= 1 && f.g >= 2 && LowBits(f) >= 0
    ensures MulWords(f, a, b) == MulWords(f, b, a)
  {
    hide Pow2, Sign, Exp, Mant, Pack, ProductMant, Long;
    PartsCommute(Pow2(LowBits(f)), Mant(f, a), Mant(f, b));
  }

  lemma PartsCommute(h: nat, m1: nat, m2: nat)
    requires h > 0
    ensures PartialProducts(h, m1, m2) == PartialProducts(h, m2, m1)
  {
    assert (m1 / h) * (m2 / h) == (m2 / h) * (m1 / h);
  }

  // Unsigned words wrap around.
  function Wrap(f: Format, x: int): nat {
    x % Pow2(f.bits)
  }

  // ---------------------------------------------------------------- the partial products

  // Dropping the low product and the fractions of the mixed ones costs less than 3 units.
  lemma PartialError(h: nat, m1: nat, m2: nat)
    requires h == LOW_SINGLE || h == LOW_DOUBLE
    ensures var r := PartialProducts(h, m1, m2);
      r * (h * h) <= m1 * m2 < (r + 3) * (h * h)
  {
    var h1, l1, h2, l2 := m1 / h, m1 % h, m2 / h, m2 % h;
    if h == LOW_SINGLE {
      SinglePartialError(h1, l1, h2, l2);
    } else {
      DoublePartialError(h1, l1, h2, l2);
    }
  }

  lemma SinglePartialError(h1: nat, l1: nat, h2: nat, l2: nat)
    requires l1 < LOW_SINGLE && l2 < LOW_SINGLE
    ensures var h := LOW_SINGLE;
      var r, x := Combine(h, h1, l1, h2, l2), (h1 * h + l1) * (h2 * h + l2);
      r * (h * h) <= x < (r + 3) * (h * h)
  {
    var h := LOW_SINGLE;
    assert (h1 * h + l1) * (h2 * h + l2) == h1 * h2 * (h * h) + l1 * h2 * h + l2 * h1 * h + l1 * l2;
    LowProduct(l1, l2, h);
  }

  lemma DoublePartialError(h1: nat, l1: nat, h2: nat, l2: nat)
    requires l1 < LOW_DOUBLE && l2 < LOW_DOUBLE
    ensures var h := LOW_DOUBLE;
      var r, x := Combine(h, h1, l1, h2, l2), (h1 * h + l1) * (h2 * h + l2);
      r * (h * h) <= x < (r + 3) * (h * h)
  {
    var h := LOW_DOUBLE;
    assert (h1 * h + l1) * (h2 * h + l2) == h1 * h2 * (h * h) + l1 * h2 * h + l2 * h1 * h + l1 * l2;
    LowProduct(l1, l2, h);
  }

  lemma LowProduct(l1: nat, l2: nat, h: nat)
    requires l1 < h && l2 < h
    ensures 0 <= l1 * l2 < h * h
  {
    MulMonotone(l1, h, l2);
    MulStrict(l2, h, h);
  }

  // ---------------------------------------------------------------- sizes

  // The sizes of one format: the two parts of a mantissa, the word, the mantissa and the product's top bit.
  lemma SplitSizes(f: Format)
    requires Splits(f)
    ensures f == SINGLE ==> Pow2(LowBits(f)) == LOW_SINGLE && Pow2(f.bits) == 0x1_0000_0000 && Pow2(f.p) == 0x100_0000
    ensures f == DOUBLE ==> Pow2(LowBits(f)) == LOW_DOUBLE && Pow2(f.bits) == 0x1_0000_0000_0000_0000
                              && Pow2(f.p) == 0x20_0000_0000_0000
    ensures Pow2(f.p) == 2 * f.Hidden() && TopBit(f) == f.Hidden() * Pow2(f.g) && Pow2(f.bits) == 8 * TopBit(f)
    ensures 4 * (Pow2(LowBits(f)) * Pow2(LowBits(f))) * Pow2(f.g) == Pow2(f.p)
  {
    if f == SINGLE { SingleSizes(); } else { DoubleSizes(); }
    Pow2Sum(f.p - 1, f.g);
    Pow2Sum(f.p + f.g - 1, 3);
    assert Pow2(3) == 8;
  }

  lemma SingleSizes()
    ensures Pow2(8) == 0x100 && Pow2(6) == 0x40 && Pow2(24) == 0x100_0000 && Pow2(32) == 0x1_0000_0000
  {
    assert Pow2(8) == 0x100 && Pow2(6) == 0x40;
    Pow2Sum(8, 8);
    Pow2Sum(16, 8);
    Pow2Sum(24, 8);
  }

  lemma DoubleSizes()
    ensures Pow2(21) == 0x20_0000 && Pow2(9) == 0x200 && Pow2(53) == 0x20_0000_0000_0000
    ensures Pow2(64) == 0x1_0000_0000_0000_0000
  {
    SingleSizes();
    assert Pow2(9) == 0x200 && Pow2(5) == 0x20 && Pow2(16) == 0x1_0000 by { Pow2Sum(8, 8); }
    Pow2Sum(16, 5);
    Pow2Sum(32, 21);
    Pow2Sum(32, 32);
  }

  // The products of the parts and their sum fit in a word, and the sum reaches its two top bits.
  lemma NoOverflow(f: Format, m1: nat, m2: nat)
    requires Splits(f)
    requires f.Hidden() <= m1 < Pow2(f.p) && f.Hidden() <= m2 < Pow2(f.p)
    ensures var h := Pow2(LowBits(f));
      && PartialProducts(h, m1, m2) < Pow2(f.bits)
      && m1 % h * (m2 / h) < Pow2(f.bits) && m2 % h * (m1 / h) < Pow2(f.bits)
      && 4 * PartialProducts(h, m1, m2) >= Pow2(f.bits)
  {
    hide Pow2;
    SplitSizes(f);
    if f == SINGLE {
      SinglePartsFit(m1 / LOW_SINGLE, m1 % LOW_SINGLE, m2 / LOW_SINGLE, m2 % LOW_SINGLE);
    } else {
      DoublePartsFit(m1 / LOW_DOUBLE, m1 % LOW_DOUBLE, m2 / LOW_DOUBLE, m2 % LOW_DOUBLE);
    }
  }

  lemma SinglePartsFit(h1: nat, l1: nat, h2: nat, l2: nat)
    requires 0x8000 <= h1 < 0x1_0000 && 0x8000 <= h2 < 0x1_0000 && l1 < LOW_SINGLE && l2 < LOW_SINGLE
    ensures l1 * h2 < 0x1_0000_0000 && l2 * h1 < 0x1_0000_0000
    ensures Combine(LOW_SINGLE, h1, l1, h2, l2) < 0x1_0000_0000 <= 4 * Combine(LOW_SINGLE, h1, l1, h2, l2)
  {
    Between(0x8000, h1, 0xFFFF, 0x8000, h2, 0xFFFF);
    Between(0, l1, 0xFF, 0, h2, 0xFFFF);
    Between(0, l2, 0xFF, 0, h1, 0xFFFF);
  }

  lemma DoublePartsFit(h1: nat, l1: nat, h2: nat, l2: nat)
    requires 0x8000_0000 <= h1 < 0x1_0000_0000 && 0x8000_0000 <= h2 < 0x1_0000_0000
    requires l1 < LOW_DOUBLE && l2 < LOW_DOUBLE
    ensures l1 * h2 < 0x1_0000_0000_0000_0000 && l2 * h1 < 0x1_0000_0000_0000_0000
    ensures Combine(LOW_DOUBLE, h1, l1, h2, l2) < 0x1_0000_0000_0000_0000 <= 4 * Combine(LOW_DOUBLE, h1, l1, h2, l2)
  {
    Between(0x8000_0000, h1, 0xFFFF_FFFF, 0x8000_0000, h2, 0xFFFF_FFFF);
    Between(0, l1, 0x1F_FFFF, 0, h2, 0xFFFF_FFFF);
    Between(0, l2, 0x1F_FFFF, 0, h1, 0xFFFF_FFFF);
  }

  lemma Between(x0: nat, x: nat, x1: nat, y0: nat, y: nat, y1: nat)
    requires x0 <= x <= x1 && y0 <= y <= y1
    ensures x0 * y0 <= x * y <= x1 * y1
  {
    MulMonotone(x0, x, y0);
    MulMonotone(y0, y, x);
    MulMonotone(x, x1, y);
    MulMonotone(y, y1, x1);
  }

  // The high product against the exact one: at most one and a half units too small.
  lemma HighProductBounds(f: Format, a: nat, b: nat)
    requires Splits(f)
    ensures var r, q, m := HighProduct(f, a, b), 4 * (Pow2(LowBits(f)) * Pow2(LowBits(f))), Mant(f, a) * Mant(f, b);
      && r * q <= m && 2 * m < (2 * r + 3) * q
      && TopBit(f) <= 2 * r < 4 * TopBit(f)
  {
    hide Pow2, PartialProducts, TopBit, Mant;
    var h, m1, m2 := Pow2(LowBits(f)), Mant(f, a), Mant(f, b);
    SplitSizes(f);
    MantBounds(f, a);
    MantBounds(f, b);
    PartialError(h, m1, m2);
    NoOverflow(f, m1, m2);
    QuarterBounds(PartialProducts(h, m1, m2), h * h, m1 * m2);
  }

  lemma QuarterBounds(x: nat, k: nat, m: nat)
    requires x * k <= m < (x + 3) * k
    ensures x / 4 * (4 * k) <= m && 2 * m < (2 * (x / 4) + 3) * (4 * k)
  {
    var r := x / 4;
    MulMonotone(4 * r, x, k);
    MulMonotone(x + 3, 4 * r + 6, k);
    Associate(4, r, k);
    assert r * (4 * k) == 4 * r * k;
    assert (2 * r + 3) * (4 * k) == 2 * ((4 * r + 6) * k);
  }

  // ---------------------------------------------------------------- rounding

  // The unit the last kept bit stands for in the high product.
  function Unit(f: Format, r: nat): nat
    requires f.p >= 1 && f.g >= 2
  {
    if Long(f, r) then Pow2(f.g) else Pow2(f.g - 1)
  }

  lemma LongIff(f: Format, r: nat)
    requires f.p >= 1 && r < 2 * TopBit(f)
    ensures Long(f, r) <==> r >= TopBit(f)
  {
    var t := TopBit(f);
    if r >= t { QuotientUnique(r, t, 1, r - t); } else { QuotientUnique(r, t, 0, r); }
  }

  // Adding half a unit and dropping the rest rounds to a nearest multiple of the unit.
  lemma ProductMantBounds(f: Format, r: nat)
    requires f.p >= 2 && f.g >= 3 && TopBit(f) <= 2 * r < 4 * TopBit(f)
    requires TopBit(f) == f.Hidden() * Pow2(f.g) && Pow2(f.p) == 2 * f.Hidden()
    ensures var m, u := ProductMant(f, r), Unit(f, r);
      && f.Hidden() <= m <= Pow2(f.p)
      && 2 * Abs(r - m * u) <= u
      && (m == Pow2(f.p) ==> 2 * r >= 2 * (Pow2(f.p) * u) - u)
      && (2 * r >= 2 * (Pow2(f.p) * u) - u ==> m == Pow2(f.p))
  {
    LongIff(f, r);
    assert Pow2(f.g) == 2 * Pow2(f.g - 1) && Pow2(f.g - 1) == 2 * Pow2(f.g - 2);
    var half := if Long(f, r) then Pow2(f.g - 1) else Pow2(f.g - 2);
    assert f.Hidden() * Pow2(f.g) == 2 * (f.Hidden() * Pow2(f.g - 1)) by { Associate(f.Hidden(), Pow2(f.g - 1), 2); }
    RoundHalfUp(r, half, f.Hidden());
    Associate(2, f.Hidden(), 2 * half);
  }

  lemma DivMod(x: nat, h: nat)
    requires h > 0
    ensures x == x / h * h + x % h && x % h < h
  {}

  lemma RoundHalfUp(r: nat, half: nat, h: nat)
    requires half >= 1 && h * (2 * half) <= r < 2 * (h * (2 * half))
    ensures var m, u := (r + half) / (2 * half), 2 * half;
      && h <= m <= 2 * h && 2 * Abs(r - m * u) <= u && (m == 2 * h <==> r + half >= 2 * (h * u))
  {
    var u := 2 * half;
    var m := (r + half) / u;
    DivMod(r + half, u);
    Associate(2, h, u);
    assert (m + 1) * u == m * u + u;
    if m < h { MulMonotone(m + 1, h, u); }
    assert (2 * h + 1) * u == 2 * h * u + u;
    if m > 2 * h { MulMonotone(2 * h + 1, m, u); }
    if m < 2 * h { MulMonotone(m + 1, 2 * h, u); }
  }

  // ---------------------------------------------------------------- the routines

  method Multiply(f: Format, a: nat, b: nat) returns (r: nat)
    requires Splits(f) && IsWord(f, a) && IsWord(f, b)
    ensures r == MulWords(f, a, b)
  {
    hide Pow2, Pack, Mant, Exp, PartialProducts;
    if a == 0 || b == 0 { return 0; }
    var sign := Sign(f, a) != Sign(f, b);
    var exp: int := Exp(f, a) - f.Excess();
    exp := exp + Exp(f, b);
    MantBounds(f, a);
    MantBounds(f, b);
    var result := MultiplyMantissas(f, Mant(f, a), Mant(f, b));
    result := result / 4;
    assert result == HighProduct(f, a, b);
    if Long(f, result) {
      result := result + Pow2(f.g - 1);
      result := result / Pow2(f.g);
    } else {
      result := result + Pow2(f.g - 2);
      result := result / Pow2(f.g - 1);
      exp := exp - 1;
    }
    if result / Pow2(f.p) % 2 == 1 {
      result := result / 2;
      exp := exp + 1;
    }
    result := result % f.Hidden();
    r := Pack(f, sign, exp, result);
  }

  // Lines 1146-1148 and 1755-1757 in words that wrap around: nothing is lost.
  method MultiplyMantissas(f: Format, m1: nat, m2: nat) returns (result: nat)
    requires Splits(f)
    requires f.Hidden() <= m1 < Pow2(f.p) && f.Hidden() <= m2 < Pow2(f.p)
    ensures result == PartialProducts(Pow2(LowBits(f)), m1, m2)
  {
    hide Pow2, Combine;
    var h := Pow2(LowBits(f));
    NoOverflow(f, m1, m2);
    result := CombineInWords(f, h, m1 / h, m1 % h, m2 / h, m2 % h);
  }

  method CombineInWords(f: Format, h: nat, h1: nat, l1: nat, h2: nat, l2: nat) returns (result: nat)
    requires h > 0 && Combine(h, h1, l1, h2, l2) < Pow2(f.bits)
    requires l1 * h2 < Pow2(f.bits) && l2 * h1 < Pow2(f.bits)
    ensures result == Combine(h, h1, l1, h2, l2)
  {
    hide Pow2, Wrap;
    FitsInWord(f, h, h1, l1, h2, l2);
    result := Wrap(f, h1 * h2);
    result := Wrap(f, result + Wrap(f, l1 * h2) / h);
    result := Wrap(f, result + Wrap(f, l2 * h1) / h);
  }

  lemma FitsInWord(f: Format, h: nat, h1: nat, l1: nat, h2: nat, l2: nat)
    requires h > 0 && Combine(h, h1, l1, h2, l2) < Pow2(f.bits)
    requires l1 * h2 < Pow2(f.bits) && l2 * h1 < Pow2(f.bits)
    ensures var high: int, mixed1: int, mixed2: int := h1 * h2, l1 * h2, l2 * h1;
      && Wrap(f, high) == high && Wrap(f, mixed1) == mixed1 && Wrap(f, mixed2) == mixed2
      && Wrap(f, high + mixed1 / h) == high + mixed1 / h
      && Wrap(f, high + mixed1 / h + mixed2 / h) == high + mixed1 / h + mixed2 / h
  {
    hide Pow2, Wrap;
    ProductNonNegative(h1, h2);
    ProductNonNegative(l1, h2);
    ProductNonNegative(l2, h1);
    QuotientNonNegative(l1 * h2, h);
    QuotientNonNegative(l2 * h1, h);
    WrapFits(f, h1 * h2);
    WrapFits(f, l1 * h2);
    WrapFits(f, l2 * h1);
    WrapFits(f, h1 * h2 + l1 * h2 / h);
    WrapFits(f, h1 * h2 + l1 * h2 / h + l2 * h1 / h);
  }

  lemma ProductNonNegative(x: nat, y: nat)
    ensures x * y >= 0
  {}

  lemma QuotientNonNegative(x: nat, h: nat)
    requires h > 0
    ensures x / h >= 0
  {}

  lemma WrapFits(f: Format, x: int)
    requires 0 <= x < Pow2(f.bits)
    ensures Wrap(f, x) == x
  {
    hide Pow2;
    QuotientUnique(x, Pow2(f.bits), 0, x);
  }

  method MulSf3(a: nat, b: nat) returns (r: nat)
    requires IsWord(SINGLE, a) && IsWord(SINGLE, b)
    ensures r == MulWords(SINGLE, a, b)
    ensures a == 0 || b == 0 ==> r == 0
  {
    r := Multiply(SINGLE, a, b);
  }

  method MulDf3(a: nat, b: nat) returns (r: nat)
    requires IsWord(DOUBLE, a) && IsWord(DOUBLE, b)
    ensures r == MulWords(DOUBLE, a, b)
    ensures a == 0 || b == 0 ==> r == 0
  {
    r := Multiply(DOUBLE, a, b);
  }
}

/** The two formats in numbers: the macros of software/include/libc.h (lines 110-132) written out. */
module FloatWords {
  import opened PowersOfTwo
  import opened FloatFormat
  import I = Integer

  lemma FormatPowers()
    ensures Pow2(8) == 0x100 && Pow2(11) == 0x800 && Pow2(20) == 0x10_0000 && Pow2(23) == 0x80_0000
    ensures Pow2(31) == 0x8000_0000 && Pow2(32) == 0x1_0000_0000
    ensures Pow2(52) == 0x10_0000_0000_0000 && Pow2(63) == 0x8000_0000_0000_0000
    ensures Pow2(64) == 0x1_0000_0000_0000_0000
  {
    assert Pow2(3) == 8 && Pow2(4) == 16 && Pow2(8) == 0x100;
    hide Pow2;
    Pow2Sum(8, 3);
    Pow2Sum(8, 8);
    Pow2Sum(16, 4);
    Pow2Sum(20, 3);
    Pow2Sum(23, 8);
    Pow2Sum(16, 16);
    Pow2Sum(32, 20);
    Pow2Sum(32, 31);
    Pow2Sum(32, 32);
  }

  // SIGN, EXP, MANT and EXCESS.
  lemma SingleFields(w: nat)
    requires IsWord(SINGLE, w)
    ensures w < 0x1_0000_0000 && (Sign(SINGLE, w) <==> w >= 0x8000_0000)
    ensures Exp(SINGLE, w) == w / 0x80_0000 % 0x100 && Mant(SINGLE, w) == w % 0x80_0000 + 0x80_0000
    ensures SINGLE.Excess() == 126
  {
    FormatPowers();
    assert Pow2(7) == 128;
    hide Pow2;
    TopBit(w, 0x8000_0000);
  }

  // SIGND, EXPD, MANTD_LL and EXCESSD.
  lemma DoubleFields(w: nat)
    requires IsWord(DOUBLE, w)
    ensures w < 0x1_0000_0000_0000_0000 && (Sign(DOUBLE, w) <==> w >= 0x8000_0000_0000_0000)
    ensures Exp(DOUBLE, w) == w / 0x10_0000_0000_0000 % 0x800
    ensures Mant(DOUBLE, w) == w % 0x10_0000_0000_0000 + 0x10_0000_0000_0000
    ensures DOUBLE.Excess() == 1022
  {
    FormatPowers();
    assert Pow2(10) == 1024;
    hide Pow2;
    TopBit(w, 0x8000_0000_0000_0000);
  }

  lemma TopBit(w: nat, t: nat)
    requires t > 0 && w < 2 * t
    ensures w / t % 2 == 1 <==> w >= t
  {
    if w >= t { QuotientUnique(w, t, 1, w - t); } else { QuotientUnique(w, t, 0, w); }
  }

  // The words of 1 and of -2.
  lemma OnesAndTwos()
    ensures Value(SINGLE, 0x3F80_0000) == SINGLE.One() && Value(SINGLE, 0xC000_0000) == -2 * SINGLE.One()
    ensures Value(DOUBLE, 0x3FF0_0000_0000_0000) == DOUBLE.One()
    ensures Value(DOUBLE, 0xC000_0000_0000_0000) == -2 * DOUBLE.One()
  {
    FormatPowers();
    hide Pow2;
    SingleFields(0x3F80_0000);
    SingleFields(0xC000_0000);
    DoubleFields(0x3FF0_0000_0000_0000);
    DoubleFields(0xC000_0000_0000_0000);
    Pow2Sum(23, 127);
    Pow2Sum(23, 128);
    Pow2Sum(52, 1023);
    Pow2Sum(52, 1024);
    NextPower(1, 150);
    NextPower(1, 1075);
  }

  // PACKD_LL: sign and exponent are added in 32 bits and moved above the mantissa.
  lemma PackDouble(sign: bool, e: int, frac: nat)
    requires frac < 0x10_0000_0000_0000
    ensures Pack(DOUBLE, sign, e, frac)
         == ((if sign then 0x8000_0000 else 0) + e * 0x10_0000) % 0x1_0000_0000 * 0x1_0000_0000 + frac
  {
    FormatPowers();
    hide Pow2;
    var low, high, q := e % 0x800, e / 0x800 % 2, e / 0x800 / 2;
    var s := if sign then 1 else 0;
    assert e == 0x1000 * q + 0x800 * high + low;
    var carry := (s + high) / 2;
    QuotientUnique(s * 0x8000_0000 + e * 0x10_0000, 0x1_0000_0000, q + carry,
                   (s + high) % 2 * 0x8000_0000 + low * 0x10_0000);
  }

  // PACK: sign, exponent and mantissa are combined with a bitwise or in 32 bits.
  lemma PackSingle(sign: bool, e: int, frac: nat)
    requires frac < 0x80_0000
    ensures Pack(SINGLE, sign, e, frac)
         == I.Or(frac, I.Or(e * 0x80_0000 % 0x1_0000_0000, if sign then 0x8000_0000 else 0))
  {
    FormatPowers();
    hide Pow2;
    var low, high, q := e % 0x100, e / 0x100 % 2, e / 0x100 / 2;
    var s: nat := if sign then 1 else 0;
    assert e == 0x200 * q + 0x100 * high + low;
    QuotientUnique(e * 0x80_0000, 0x1_0000_0000, q, high * 0x8000_0000 + low * 0x80_0000);
    OrAbove(low * 0x80_0000, high, s, 31);
    var top := I.Or(high, s);
    OneBit(high, s);
    I.OrOfApart(frac, low + 0x100 * top, 23);
    assert low * 0x80_0000 + top * 0x8000_0000 == (low + 0x100 * top) * 0x80_0000;
  }

  lemma OneBit(x: nat, y: nat)
    requires x <= 1 && y <= 1
    ensures I.Or(x, y) == if x == 1 || y == 1 then 1 else 0
  {}

  function Moved(a: nat, k: nat): nat {
    a * Pow2(k)
  }

  lemma MovedTwice(a: nat, k: nat)
    requires k > 0
    ensures Moved(a, k) == 2 * Moved(a, k - 1) && Pow2(k) == 2 * Pow2(k - 1)
  {
    Associate(a, 2, Pow2(k - 1));
  }

  // Bits below the k-th are not touched by bits from the k-th up.
  lemma {:induction false} OrAbove(x: nat, a: nat, b: nat, k: nat)
    requires x < Pow2(k)
    ensures I.Or(x + Moved(a, k), Moved(b, k)) == x + Moved(I.Or(a, b), k)
  {
    hide I.Or;
    if k == 0 {
      assert Pow2(0) == 1;
    } else {
      MovedTwice(a, k);
      MovedTwice(b, k);
      MovedTwice(I.Or(a, b), k);
      hide Moved, Pow2;
      OrAbove(x / 2, a, b, k - 1);
      NextOr(x, Moved(a, k - 1), Moved(b, k - 1), Moved(I.Or(a, b), k - 1));
    }
  }

  lemma NextOr(x: nat, y: nat, z: nat, r: nat)
    requires I.Or(x / 2 + y, z) == x / 2 + r
    ensures I.Or(x + 2 * y, 2 * z) == x + 2 * r
  {
    hide I.Or;
    DoubledOr(x % 2, x / 2 + y, z, x / 2 + r);
  }

  lemma DoubledOr(bit: nat, y: nat, z: nat, r: nat)
    requires bit <= 1 && I.Or(y, z) == r
    ensures I.Or(2 * y + bit, 2 * z) == 2 * r + bit
  {}
}

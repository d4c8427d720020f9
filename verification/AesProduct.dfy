/**
 Products in the field of AES (FIPS 197 section 4.2) and the powers of 3, which AES_generateSBox of
 aes_lite/aes.c tabulates: 3 has order 255, so its powers are all the non-zero bytes.
 */
module AesProduct {
  import opened AesField

  function Mask(i: int): bv8
    requires 0 <= i < 8
  {
    if i == 0 then 1 else if i == 1 then 2 else if i == 2 then 4 else if i == 3 then 8
    else if i == 4 then 16 else if i == 5 then 32 else if i == 6 then 64 else 128
  }

  predicate Bit(x: bv8, i: int)
    requires 0 <= i < 8
  {
    x & Mask(i) != 0
  }

  function Select(bit: bool, y: bv8): bv8 { if bit then y else 0 }

  function Doubled(k: nat, y: bv8): bv8 { if k == 0 then y else XTime(Doubled(k - 1, y)) }

  // The sum of y doubled i times over the bits i < n set in x.
  function Multiples(x: bv8, y: bv8, n: nat): bv8
    requires n <= 8
  {
    if n == 0 then 0 else Add(Select(Bit(x, n - 1), Doubled(n - 1, y)), Multiples(x, y, n - 1))
  }

  // The product of x and y.
  function Times(x: bv8, y: bv8): bv8 { Multiples(x, y, 8) }

  lemma AddZero(a: bv8)
    ensures Add(a, 0) == a && Add(0, a) == a && Add(a, a) == 0 && XTime(0) == 0
  {}

  lemma BitsAdd(x: bv8, y: bv8, i: int)
    requires 0 <= i < 8
    ensures Bit(Add(x, y), i) == (Bit(x, i) != Bit(y, i))
  {
    MaskIsOneBit(i);
    hide Add, Mask;
    OneBitAdds(x, y, Mask(i));
  }

  lemma MaskIsOneBit(i: int)
    requires 0 <= i < 8
    ensures Mask(i) & (Mask(i) - 1) == 0
  {}

  lemma OneBitAdds(x: bv8, y: bv8, m: bv8)
    requires m & (m - 1) == 0
    ensures (Add(x, y) & m != 0) == ((x & m != 0) != (y & m != 0))
  {}

  lemma ShiftedBits(x: bv8, i: int)
    requires 0 <= i < 8
    ensures Bit(Shifted(x), i) == (i > 0 && Bit(x, i - 1))
  {}

  lemma SelectAdds(b: bool, c: bool, y: bv8)
    ensures Select(b != c, y) == Add(Select(b, y), Select(c, y))
  {}

  lemma {:induction false} DoubledOnce(k: nat, y: bv8)
    ensures Doubled(k, XTime(y)) == Doubled(k + 1, y)
  {
    hide XTime;
    if k > 0 { DoubledOnce(k - 1, y); }
  }

  // ---------------------------------------------------------------- the product is linear in x

  lemma {:induction false} MultiplesAdd(x: bv8, x': bv8, y: bv8, n: nat)
    requires n <= 8
    ensures Multiples(Add(x, x'), y, n) == Add(Multiples(x, y, n), Multiples(x', y, n))
  {
    hide Add, Bit, Select, Doubled;
    if n == 0 {
      AddZero(0);
    } else {
      MultiplesAdd(x, x', y, n - 1);
      BitsAdd(x, x', n - 1);
      var d := Doubled(n - 1, y);
      SelectAdds(Bit(x, n - 1), Bit(x', n - 1), d);
      Swap(Select(Bit(x, n - 1), d), Select(Bit(x', n - 1), d), Multiples(x, y, n - 1), Multiples(x', y, n - 1));
    }
  }

  lemma SelectDoubles(b: bool, y: bv8)
    ensures XTime(Select(b, y)) == Select(b, XTime(y))
  {}

  lemma {:induction false} MultiplesDouble(x: bv8, y: bv8, n: nat)
    requires n <= 8
    ensures XTime(Multiples(x, y, n)) == Multiples(x, XTime(y), n)
  {
    hide Add, Bit, Select, XTime;
    if n == 0 {
      AddZero(0);
    } else {
      MultiplesDouble(x, y, n - 1);
      var d := Doubled(n - 1, y);
      SelectDoubles(Bit(x, n - 1), d);
      DoubledOnce(n - 1, y);
      XTimeAdds(Select(Bit(x, n - 1), d), Multiples(x, y, n - 1));
    }
  }

  lemma {:induction false} MultiplesShift(x: bv8, y: bv8, n: nat)
    requires n <= 7
    ensures Multiples(Shifted(x), y, n + 1) == Multiples(x, XTime(y), n)
  {
    hide Add, Bit, XTime, Shifted;
    ShiftedBits(x, n);
    if n == 0 {
      AddZero(0);
    } else {
      MultiplesShift(x, y, n - 1);
      DoubledOnce(n - 1, y);
    }
  }

  lemma SmallMultiples(y: bv8)
    ensures Times(0, y) == 0 && Times(1, y) == y && Times(2, y) == XTime(y)
    ensures Times(0x1B, y) == Add(Doubled(4, y), Add(Doubled(3, y), Add(XTime(y), y)))
  {
    hide Add, XTime;
    MultiplesOfZero(y, 8);
    MultiplesOfBits(y);
  }

  lemma {:induction false} MultiplesOfZero(y: bv8, n: nat)
    requires n <= 8
    ensures Multiples(0, y, n) == 0
  {
    if n > 0 { MultiplesOfZero(y, n - 1); }
  }

  lemma OneMore(x: bv8, y: bv8, n: nat)
    requires n < 8
    ensures Multiples(x, y, n + 1) ==
      if Bit(x, n) then Add(Doubled(n, y), Multiples(x, y, n)) else Multiples(x, y, n)
    ensures Multiples(x, y, 0) == 0
  {
    hide Bit, Doubled, Add;
    AddZero(Multiples(x, y, n));
  }

  lemma BitsOfConstants()
    ensures Bit(1, 0) && forall i :: 1 <= i < 8 ==> !Bit(1, i)
    ensures Bit(2, 1) && forall i :: 0 <= i < 8 && i != 1 ==> !Bit(2, i)
    ensures forall i :: 0 <= i < 8 ==> (Bit(0x1B, i) <==> i == 0 || i == 1 || i == 3 || i == 4)
  {}

  lemma MultiplesOfBits(y: bv8)
    ensures Times(1, y) == y && Times(2, y) == XTime(y)
    ensures Times(0x1B, y) == Add(Doubled(4, y), Add(Doubled(3, y), Add(XTime(y), y)))
  {
    BitsOfConstants();
    DoubledIs(y);
    hide Bit, Add, XTime, Multiples, Doubled;
    AddZero(y);
    AddZero(XTime(y));
    OneMore(1, y, 0);
    ClearBits(1, y, 1, 8);
    ClearBits(2, y, 0, 1);
    OneMore(2, y, 1);
    ClearBits(2, y, 2, 8);
    OneMore(0x1B, y, 0);
    OneMore(0x1B, y, 1);
    OneMore(0x1B, y, 2);
    OneMore(0x1B, y, 3);
    OneMore(0x1B, y, 4);
    ClearBits(0x1B, y, 5, 8);
  }

  lemma {:induction false} ClearBits(x: bv8, y: bv8, m: nat, n: nat)
    requires m <= n <= 8 && forall i :: m <= i < n ==> !Bit(x, i)
    ensures Multiples(x, y, n) == Multiples(x, y, m)
    ensures Multiples(x, y, 0) == 0
  {
    hide Bit, Doubled, Add;
    if m < n {
      ClearBits(x, y, m, n - 1);
      OneMore(x, y, n - 1);
    }
  }

  // The reduction polynomial: doubling eight times is multiplying by 0x1B.
  lemma DoubledEightTimes(y: bv8)
    ensures Doubled(8, y) == Times(0x1B, y)
  {
    EightDoublings(y);
    hide Add, XTime, Times;
    SmallMultiples(y);
    DoubledIs(y);
  }

  lemma DoubledIs(y: bv8)
    ensures Doubled(0, y) == y && Doubled(1, y) == XTime(y) && Doubled(3, y) == XTime(XTime(XTime(y)))
    ensures Doubled(4, y) == XTime(XTime(XTime(XTime(y))))
    ensures Doubled(8, y) == XTime(XTime(XTime(XTime(Doubled(4, y)))))
  {
    hide XTime;
    assert Doubled(2, y) == XTime(XTime(y)) && Doubled(6, y) == XTime(XTime(Doubled(4, y)));
  }

  lemma EightDoublings(y: bv8)
    ensures var y4 := XTime(XTime(XTime(XTime(y))));
      XTime(XTime(XTime(XTime(y4)))) == Add(y4, Add(XTime(XTime(XTime(y))), Add(XTime(y), y)))
  {}

  // ---------------------------------------------------------------- powers of three

  // One step of the table t: x ^ (x << 1), reduced.
  function Triple(x: bv8): bv8 { Add(x, XTime(x)) }

  function Power(n: nat, x: bv8): bv8 { if n == 0 then x else Triple(Power(n - 1, x)) }

  lemma DoubleOfProduct(x: bv8, y: bv8)
    ensures Times(XTime(x), y) == XTime(Times(x, y))
  {
    hide Add, XTime, Shifted, Reduction, Bit;
    XTimeParts(x);
    MultiplesAdd(Shifted(x), Reduction(x), y, 8);
    MultiplesShift(x, y, 7);
    MultiplesDouble(x, y, 8);
    DoubledOnce(7, y);
    ReducedProduct(x, y);
    Commute(Multiples(x, XTime(y), 7), Times(Reduction(x), y));
  }

  lemma ReducedProduct(x: bv8, y: bv8)
    ensures Times(Reduction(x), y) == Select(Bit(x, 7), Doubled(8, y))
  {
    assert Reduction(x) == if Bit(x, 7) then 0x1B else 0;
    hide Add, XTime, Reduction, Bit, Times, Doubled;
    DoubledEightTimes(y);
    SmallMultiples(y);
  }

  lemma TripleOfProduct(x: bv8, y: bv8)
    ensures Times(Triple(x), y) == Triple(Times(x, y))
  {
    hide Add, XTime, Multiples;
    MultiplesAdd(x, XTime(x), y, 8);
    DoubleOfProduct(x, y);
  }

  lemma {:induction false} PowerOfProduct(n: nat, x: bv8, y: bv8)
    ensures Times(Power(n, x), y) == Power(n, Times(x, y))
  {
    hide Times, Triple;
    if n > 0 {
      PowerOfProduct(n - 1, x, y);
      TripleOfProduct(Power(n - 1, x), y);
    }
  }

  lemma PowerIsProduct(n: nat, y: bv8)
    ensures Times(Power(n, 1), y) == Power(n, y)
  {
    hide Times, Triple;
    PowerOfProduct(n, 1, y);
    SmallMultiples(y);
  }

  lemma {:induction false} PowersAdd(m: nat, n: nat, x: bv8)
    ensures Power(m + n, x) == Power(m, Power(n, x))
  {
    hide Triple;
    if m > 0 { PowersAdd(m - 1, n, x); }
  }

  function FourMore(x: bv8): bv8 { Triple(Triple(Triple(Triple(x)))) }
  function SeventeenMore(x: bv8): bv8 { Triple(FourMore(FourMore(FourMore(FourMore(x))))) }

  lemma PowerOfFour(x: bv8)
    ensures Power(4, x) == FourMore(x)
  {
    hide Triple, Power;
    NextPower(0, x);
    NextPower(1, x);
    NextPower(2, x);
    NextPower(3, x);
  }

  lemma NextPower(n: nat, x: bv8)
    ensures Power(n + 1, x) == Triple(Power(n, x)) && Power(0, x) == x
  {}

  lemma PowerOfSeventeen(x: bv8)
    ensures Power(17, x) == SeventeenMore(x)
  {
    hide FourMore, Triple;
    PowerOfFour(x);
    PowerOfFour(FourMore(x));
    PowerOfFour(FourMore(FourMore(x)));
    PowerOfFour(FourMore(FourMore(FourMore(x))));
    PowersAdd(4, 4, x);
    PowersAdd(4, 8, x);
    PowersAdd(4, 12, x);
  }

  // Seventeen steps at a time through the fifteen powers of 3 whose exponent is a multiple of 17.
  lemma SeventeenSteps1()
    ensures SeventeenMore(0x01) == 0xE1
    ensures SeventeenMore(0xE1) == 0x5C
    ensures SeventeenMore(0x5C) == 0x0C
  {}

  lemma SeventeenSteps2()
    ensures SeventeenMore(0x0C) == 0xE0
    ensures SeventeenMore(0xE0) == 0xBD
    ensures SeventeenMore(0xBD) == 0x50
  {}

  lemma SeventeenSteps3()
    ensures SeventeenMore(0x50) == 0xEC
    ensures SeventeenMore(0xEC) == 0x5D
    ensures SeventeenMore(0x5D) == 0xED
  {}

  lemma SeventeenSteps4()
    ensures SeventeenMore(0xED) == 0xBC
    ensures SeventeenMore(0xBC) == 0xB1
    ensures SeventeenMore(0xB1) == 0xB0
  {}

  lemma SeventeenSteps5()
    ensures SeventeenMore(0xB0) == 0x51
    ensures SeventeenMore(0x51) == 0x0D
    ensures SeventeenMore(0x0D) == 0x01
  {}

  lemma Multiples17()
    ensures Power(51, 1) == 0x0C && Power(85, 1) == 0xBD && Power(170, 1) == 0xBC && Power(255, 1) == 1
  {
    hide Power, SeventeenMore;
    SeventeenSteps1();
    SeventeenSteps2();
    SeventeenSteps3();
    SeventeenSteps4();
    SeventeenSteps5();
    Next17(0);
    Next17(17);
    Next17(34);
    Next17(51);
    Next17(68);
    Next17(85);
    Next17(102);
    Next17(119);
    Next17(136);
    Next17(153);
    Next17(170);
    Next17(187);
    Next17(204);
    Next17(221);
    Next17(238);
    PowersStart();
  }

  lemma Next17(n: nat)
    ensures Power(17 + n, 1) == SeventeenMore(Power(n, 1))
  {
    hide Power, SeventeenMore;
    PowersAdd(17, n, 1);
    PowerOfSeventeen(Power(n, 1));
  }

  lemma PowersStart()
    ensures Power(0, 1) == 1
  {}

  lemma FifteenSteps()
    ensures Power(15, 1) == 0x35
  {
    hide FourMore;
    PowersAdd(3, 12, 1);
    PowersAdd(4, 8, 1);
    PowersAdd(4, 4, 1);
    PowerOfFour(1);
    PowerOfFour(FourMore(1));
    PowerOfFour(FourMore(FourMore(1)));
    TwelveSteps();
    assert Power(2, 0xA1) == Triple(Triple(0xA1));
  }

  lemma TwelveSteps()
    ensures FourMore(FourMore(FourMore(1))) == 0xA1
  {}

  // ---------------------------------------------------------------- the mixing coefficients

  lemma Eights(y: bv8)
    ensures Times(4, y) == XTime(XTime(y)) && Times(8, y) == XTime(XTime(XTime(y)))
  {
    assert XTime(2) == 4 && XTime(4) == 8;
    hide XTime, Times;
    SmallMultiples(y);
    DoubleOfProduct(2, y);
    DoubleOfProduct(4, y);
  }

  lemma SumOfMultiples(j: bv8, k: bv8, y: bv8)
    ensures Times(Add(j, k), y) == Add(Times(j, y), Times(k, y))
  {
    hide Add, Multiples;
    MultiplesAdd(j, k, y, 8);
  }

  // First row of MixColumns, section 5.1.3 of FIPS 197.
  lemma MixColumnsRow(a: bv8, b: bv8, c: bv8, d: bv8)
    ensures MixByte(a, b, c, d) == Add(Add(Add(Times(2, a), Times(3, b)), c), d)
  {
    assert Add(2, 1) == 3;
    hide Add, XTime, Times;
    SmallMultiples(a);
    SmallMultiples(b);
    SumOfMultiples(2, 1, b);
    XTimeAdds(a, b);
    Associate(XTime(a), XTime(b), b);
    Associate(Add(XTime(a), XTime(b)), b, c);
    Associate(Add(XTime(a), XTime(b)), Add(b, c), d);
    Associate(b, c, d);
    Commute(Add(XTime(a), XTime(b)), Add(b, Add(c, d)));
  }

  // First row of InvMixColumns, section 5.3.3 of FIPS 197.
  lemma InvMixColumnsRow(a: bv8, b: bv8, c: bv8, d: bv8)
    ensures InvMixByte(a, b, c, d) == Add(Add(Add(Times(0x0E, a), Times(0x0B, b)), Times(0x0D, c)), Times(0x09, d))
  {
    assert Add(1, 8) == 0x09 && Add(2, 0x09) == 0x0B && Add(4, 0x09) == 0x0D && Add(Add(2, 4), 8) == 0x0E;
    hide Add, XTime, Times, InvMixByte;
    SmallMultiples(a);
    Eights(a);
    SumOfMultiples(2, 4, a);
    SumOfMultiples(Add(2, 4), 8, a);
    SmallMultiples(b);
    Eights(b);
    SumOfMultiples(1, 8, b);
    SumOfMultiples(2, 0x09, b);
    SmallMultiples(c);
    Eights(c);
    SumOfMultiples(1, 8, c);
    SumOfMultiples(4, 0x09, c);
    SmallMultiples(d);
    Eights(d);
    SumOfMultiples(1, 8, d);
    PackedRow(a, b, c, d);
  }

  // ---------------------------------------------------------------- three has order 255

  lemma {:induction false} PeriodRepeats(d: nat, k: nat)
    requires Power(d, 1) == 1
    ensures Power(k * d, 1) == 1
  {
    hide Triple;
    if k > 0 {
      PeriodRepeats(d, k - 1);
      assert k * d == (k - 1) * d + d;
      PowersAdd((k - 1) * d, d, 1);
    }
  }

  // A smaller positive period would divide 255, hence 15, 51 or 85, and those are no periods.
  lemma {:induction false} NoSmallerPeriod(d: nat)
    requires 0 < d < 255
    ensures Power(d, 1) != 1
  {
    hide Power;
    if Power(d, 1) == 1 {
      var q, r := 255 / d, 255 % d;
      PeriodRepeats(d, q);
      Multiples17();
      FifteenSteps();
      PowersAdd(r, q * d, 1);
      if r > 0 {
        NoSmallerPeriod(r);
      } else {
        var e := ProperDivisor(d, q);
        PeriodRepeats(d, e);
      }
    }
  }

  lemma ProperDivisor(d: nat, q: nat) returns (e: nat)
    requires q * d == 255 && 1 < q
    ensures e * d == 15 || e * d == 51 || e * d == 85
  {
    if q % 3 == 0 {
      e := q / 3;
      assert q == 3 * e;
    } else if q % 5 == 0 {
      e := q / 5;
      assert q == 5 * e;
    } else if q % 17 == 0 {
      e := q / 17;
      assert q == 17 * e;
    } else {
      NoOtherCofactor(q, d);
    }
  }

  lemma NoOtherCofactor(q: nat, d: nat)
    requires q * d == 255 && q % 3 != 0 && q % 5 != 0 && q % 17 != 0
    ensures q == 1
  {
    if q <= 15 {
      SmallFactor(q, d);
    } else {
      assert d <= 15 by { if d >= 16 { TooLarge(q, d); } }
      SmallFactor(d, q);
    }
  }

  lemma TooLarge(q: nat, d: nat)
    requires 16 <= q && 16 <= d
    ensures 255 < q * d
  {}

  lemma SmallFactor(a: nat, b: nat)
    requires a * b == 255 && a <= 15
    ensures (a == 1 && b == 255) || (a == 3 && b == 85) || (a == 5 && b == 51) || (a == 15 && b == 17)
  {
    if a <= 7 {
      assert a == 0 || a == 1 || a == 2 || a == 3 || a == 4 || a == 5 || a == 6 || a == 7;
    } else {
      assert a == 8 || a == 9 || a == 10 || a == 11 || a == 12 || a == 13 || a == 14 || a == 15;
    }
  }

  lemma PowersAreDistinct(i: nat, j: nat)
    requires i < j < 255
    ensures Power(i, 1) != Power(j, 1)
  {
    hide Power, Times;
    if Power(i, 1) == Power(j, 1) {
      Multiples17();
      PowerIsProduct(i, Power(255 - i, 1));
      PowerIsProduct(j, Power(255 - i, 1));
      PowersAdd(i, 255 - i, 1);
      PowersAdd(j, 255 - i, 1);
      PowersAdd(j - i, 255, 1);
      NoSmallerPeriod(j - i);
    }
  }

  lemma PowerIsNotZero(i: nat)
    requires i <= 255
    ensures Power(i, 1) != 0
  {
    hide Power, Times;
    Multiples17();
    PowerIsProduct(i, Power(255 - i, 1));
    PowersAdd(i, 255 - i, 1);
    SmallMultiples(Power(255 - i, 1));
  }
}

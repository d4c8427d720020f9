/**
 The integer routines of lib/libc.c for a core without multiply and divide instructions. Words are numbers below
 2^32 or 2^64; signed words lie in two's complement range, and sums, products, shifts and negations wrap.
 */
module Integer {
  import opened PowersOfTwo

  const W16 := 0x1_0000
  const W32 := 0x1_0000_0000
  const W64 := 0x1_0000_0000_0000_0000

  // The word w read as a signed number, and a signed number as a word, for words below size.
  function Signed(w: int, size: int): int { if 2 * w < size then w else w - size }
  function Unsigned(x: int, size: int): int
    requires size > 0
  {
    x % size
  }

  predicate IsSigned(x: int, size: int) { -size <= 2 * x < size }

  // Division towards zero, as C defines it, and its remainder.
  function TruncatedQuotient(a: int, b: int): int
    requires b != 0
  {
    var q := Abs(a) / Abs(b);
    if (a < 0) == (b < 0) then q else -q
  }

  function TruncatedRemainder(a: int, b: int): int
    requires b != 0
  {
    var r := Abs(a) % Abs(b);
    if a < 0 then -r else r
  }

  lemma TruncationLaw(a: int, b: int)
    requires b != 0
    ensures a == TruncatedQuotient(a, b) * b + TruncatedRemainder(a, b)
    ensures Abs(TruncatedRemainder(a, b)) < Abs(b)
    ensures TruncatedRemainder(a, b) != 0 ==> (TruncatedRemainder(a, b) < 0 <==> a < 0)
  {
    var q, r := Abs(a) / Abs(b), Abs(a) % Abs(b);
    assert Abs(a) == q * Abs(b) + r;
    NegatedProducts(q, b);
  }

  lemma NegatedProducts(q: int, b: int)
    ensures (-q) * b == -(q * b) && q * (-b) == -(q * b) && (-q) * (-b) == q * b
  {}

  // ---------------------------------------------------------------- unsigned division

  // x | bit for a power of two.
  function OrBit(x: nat, bit: nat): nat
    requires bit > 0
  {
    if (x / bit) % 2 == 1 then x else x + bit
  }

  // What shift-and-subtract keeps while bit > 0: the divisor stands shifted to bit.
  ghost predicate Dividing(num0: nat, den0: nat, num: nat, den: nat, res: nat, bit: nat, i: nat) {
    && bit == Pow2(i) && den == den0 * bit
    && num0 == res * den0 + num && num < 2 * den
    && exists m: nat :: res == m * (2 * bit)
  }

  lemma ClearBit(m: nat, bit: nat)
    requires bit > 0
    ensures OrBit(m * (2 * bit), bit) == m * (2 * bit) + bit
  {
    var x := m * (2 * bit);
    assert x == (2 * m) * bit;
    QuotientUnique(x, bit, 2 * m, 0);
  }

  lemma SubtractionStep(num0: nat, den0: nat, num: nat, den: nat, res: nat, bit: nat)
    requires num0 == res * den0 + num && den == den0 * bit && den <= num
    ensures num0 == (res + bit) * den0 + (num - den)
  {}

  // One turn of the subtraction loop.
  lemma DividingStep(num0: nat, den0: nat, num: nat, den: nat, res: nat, bit: nat, i: nat)
    requires Dividing(num0, den0, num, den, res, bit, i)
    ensures var num' := if num >= den then num - den else num;
      var res' := if num >= den then res + bit else res;
      && (num >= den ==> OrBit(res, bit) == res')
      && num0 == res' * den0 + num' && num' < den
      && (bit == 1 ==> num' < den0)
      && (bit > 1 ==> i > 0 && Dividing(num0, den0, num', den / 2, res', bit / 2, i - 1))
  {
    var m: nat :| res == m * (2 * bit);
    ClearBit(m, bit);
    var num' := if num >= den then num - den else num;
    var res' := if num >= den then res + bit else res;
    if num >= den { SubtractionStep(num0, den0, num, den, res, bit); }
    if bit > 1 {
      var half := Pow2(i - 1);
      assert bit == 2 * half;
      HalfProduct(den0, half);
      var m' := if num >= den then 2 * m + 1 else 2 * m;
      Regrouped(m, half);
      assert res' == m' * (2 * half);
    }
  }

  lemma HalfProduct(d: nat, half: nat)
    ensures d * (2 * half) == 2 * (d * half) && (d * (2 * half)) / 2 == d * half
  {}

  lemma Regrouped(m: nat, half: nat)
    ensures m * (2 * (2 * half)) == (2 * m) * (2 * half)
    ensures m * (2 * (2 * half)) + 2 * half == (2 * m + 1) * (2 * half)
  {}

  lemma DoublingStep(den0: nat, den: nat, bit: nat, i: nat)
    requires den == den0 * bit && bit == Pow2(i)
    ensures 2 * den == den0 * (2 * bit) && 2 * bit == Pow2(i + 1)
  {}

  lemma NotBelow(den0: nat, bit: nat)
    requires 0 < den0
    ensures bit <= den0 * bit
  {
    MulMonotone(1, den0, bit);
  }

  // __udivmodsi4. Dividing by zero is not an error: the remainder is the dividend and the quotient 0, or 1 for 0 / 0.
  method UDivMod32(num0: nat, den0: nat, modWanted: bool) returns (r: nat)
    requires num0 < W32 && den0 < W32
    ensures den0 > 0 ==> r == if modWanted then num0 % den0 else num0 / den0
    ensures den0 == 0 ==> r == if modWanted then num0 else if num0 == 0 then 1 else 0
  {
    hide Dividing, Pow2;
    FirstPower();
    var num: nat, den: nat, bit: nat := num0, den0, 1;
    ghost var i: nat := 0;
    while den < num && bit != 0 && den < 0x8000_0000
      invariant i <= 32 && bit == (if i < 32 then Pow2(i) else 0) && den < W32
      invariant den0 == 0 ==> den == 0 && (num0 == 0 ==> i == 0)
      invariant den0 > 0 ==> den == den0 * bit && i < 32
      decreases 32 - i
    {
      PowersTo32(i);
      PowersTo32(i + 1);
      if den0 > 0 { DoublingStep(den0, den, bit, i); NotBelow(den0, bit); }
      den := (den * 2) % W32;
      bit := (bit * 2) % W32;
      i := i + 1;
      if den0 > 0 { NotBelow(den0, bit); }
    }
    if den0 == 0 {
      r := ZeroDivisor(num, den, bit, modWanted);
      return;
    }
    StartDividing(num0, den0, den, bit, i);
    var quot, rem := SubtractOr(num0, den0, den, bit, i);
    if modWanted { return rem; }
    return quot;
  }

  // The second loop of __udivmodsi4, for a divisor that is not zero.
  method SubtractOr(num0: nat, den0: nat, den1: nat, bit1: nat, ghost i1: nat) returns (res: nat, num: nat)
    requires Dividing(num0, den0, num0, den1, 0, bit1, i1) && den0 > 0
    ensures res == num0 / den0 && num == num0 % den0
  {
    hide Dividing, Pow2;
    PowerIsPositive(num0, den0, num0, den1, 0, bit1, i1);
    var den: nat, bit: nat := den1, bit1;
    res, num := 0, num0;
    ghost var i := i1;
    while bit != 0
      invariant bit != 0 ==> Dividing(num0, den0, num, den, res, bit, i)
      invariant bit == 0 ==> num0 == res * den0 + num && num < den0
      decreases bit
    {
      DividingStep(num0, den0, num, den, res, bit, i);
      if num >= den {
        num := num - den;
        res := OrBit(res, bit);
      }
      bit := bit / 2;
      den := den / 2;
      i := if i == 0 then 0 else i - 1;
    }
    QuotientUnique(num0, den0, res, num);
  }

  lemma PowerIsPositive(num0: nat, den0: nat, num: nat, den: nat, res: nat, bit: nat, i: nat)
    requires Dividing(num0, den0, num, den, res, bit, i)
    ensures bit > 0
  {}

  // The second loop when the divisor is zero: bit has been shifted out, or is 1 for a dividend of zero.
  method ZeroDivisor(num0: nat, den: nat, bit0: nat, modWanted: bool) returns (r: nat)
    requires den == 0 && bit0 == if num0 == 0 then 1 else 0
    ensures r == if modWanted then num0 else if num0 == 0 then 1 else 0
  {
    var num: nat, bit: nat, res: nat := num0, bit0, 0;
    while bit != 0
      invariant num == num0 && bit <= bit0
      invariant res == if bit < bit0 then 1 else 0
      decreases bit
    {
      if num >= den {
        num := num - den;
        res := OrBit(res, bit);
      }
      bit := bit / 2;
    }
    if modWanted { return num; }
    return res;
  }

  lemma PowersTo32(i: nat)
    requires i <= 32
    ensures Pow2(i) <= W32 && (i < 32 ==> Pow2(i) <= 0x8000_0000) && (i == 31 ==> Pow2(i) == 0x8000_0000)
    ensures Pow2(i + 1) == 2 * Pow2(i)
  {
    PowersOfWords();
    Pow2Monotone(i, 32);
    assert Pow2(32) == 2 * Pow2(31);
    if i < 31 { Pow2Monotone(i, 31); }
  }

  lemma FirstPower()
    ensures Pow2(0) == 1
  {}

  lemma StartDividing(num: nat, den0: nat, den: nat, bit: nat, i: nat)
    requires den == den0 * bit && bit == Pow2(i) && num < 2 * den
    ensures Dividing(num, den0, num, den, 0, bit, i)
  {
    assert 0 == 0 * (2 * bit);
  }

  // __udivmoddi4: the quotient, and what is then at rem_p, which held remBefore; `store` says whether rem_p is not
  // null. Dividing by zero gives 1 and stores nothing.
  method UDivMod64(num0: nat, den0: nat, store: bool, remBefore: nat) returns (quot: nat, rem: nat)
    requires num0 < W64 && den0 < W64
    ensures den0 > 0 ==> quot == num0 / den0 && rem == if store then num0 % den0 else remBefore
    ensures den0 == 0 ==> quot == 1 && rem == remBefore
  {
    hide Dividing, Pow2;
    FirstPower();
    var den: nat, qbit: nat := den0, 1;
    if den == 0 {
      return 1, remBefore;
    }
    ghost var i: nat := 0;
    while den < 0x8000_0000_0000_0000
      invariant i < 64 && qbit == Pow2(i) && den == den0 * qbit && den < W64
      decreases 64 - i
    {
      DoublingStep(den0, den, qbit, i);
      NotBelow(den0, qbit);
      den := (den * 2) % W64;
      qbit := (qbit * 2) % W64;
      i := i + 1;
      NotBelow(den0, Pow2(i));
      PowerBelow64(i);
    }
    StartDividing(num0, den0, den, qbit, i);
    var num: nat;
    quot, num := SubtractAdd(num0, den0, den, qbit, i);
    rem := if store then num else remBefore;
  }

  // The second loop of __udivmoddi4.
  method SubtractAdd(num0: nat, den0: nat, den1: nat, bit1: nat, ghost i1: nat) returns (quot: nat, num: nat)
    requires Dividing(num0, den0, num0, den1, 0, bit1, i1) && den0 > 0
    ensures quot == num0 / den0 && num == num0 % den0
  {
    hide Dividing, Pow2, OrBit;
    PowerIsPositive(num0, den0, num0, den1, 0, bit1, i1);
    var den: nat, qbit: nat := den1, bit1;
    quot, num := 0, num0;
    ghost var i := i1;
    while qbit != 0
      invariant qbit != 0 ==> Dividing(num0, den0, num, den, quot, qbit, i)
      invariant qbit == 0 ==> num0 == quot * den0 + num && num < den0
      decreases qbit
    {
      DividingStep(num0, den0, num, den, quot, qbit, i);
      if den <= num {
        num := num - den;
        quot := quot + qbit;
      }
      den := den / 2;
      qbit := qbit / 2;
      i := if i == 0 then 0 else i - 1;
    }
    QuotientUnique(num0, den0, quot, num);
  }

  lemma PowersOfWords()
    ensures Pow2(32) == W32 && Pow2(64) == W64
  {
    assert Pow2(8) == 0x100;
    hide Pow2;
    Pow2Sum(8, 8);
    assert Pow2(16) == 0x1_0000;
    Pow2Sum(16, 16);
    assert Pow2(32) == W32;
    Pow2Sum(32, 32);
  }

  lemma PowerBelow64(i: nat)
    requires Pow2(i) < W64
    ensures i < 64
  {
    if i >= 64 {
      Pow2Monotone(64, i);
      PowersOfWords();
    }
  }

  // ---------------------------------------------------------------- signed division

  // -x in a signed word: the least number is its own negation.
  function Negated(x: int, size: int): int
    requires size > 0
  {
    Signed(Unsigned(-x, size), size)
  }

  lemma NegatedWord(x: int, size: int)
    requires IsSigned(x, size) && size > 0 && size % 2 == 0
    ensures Negated(x, size) == if 2 * x == -size then x else -x
    ensures x < 0 ==> Unsigned(Negated(x, size), size) == -x
    ensures x >= 0 ==> Unsigned(x, size) == x
  {
    if x == 0 {
      QuotientUnique(0, size, 0, 0);
    } else if x < 0 {
      QuotientUnique(-x, size, 0, -x);
      if 2 * x == -size { QuotientUnique(x, size, -1, -x); }
    } else {
      QuotientUnique(x, size, 0, x);
      QuotientUnique(-x, size, -1, size - x);
    }
  }

  // A magnitude up to half the word, stored in a signed word and then negated if asked.
  lemma SignedResult(q: nat, neg: bool, size: int)
    requires size > 0 && size % 2 == 0 && 2 * q <= size
    ensures var res := Signed(q, size);
      (if neg then Negated(res, size) else res) == if neg || 2 * q == size then 0 - q else q
  {
    NegatedWord(Signed(q, size), size);
  }

  lemma MagnitudeOfQuotient(a: nat, b: nat)
    requires b > 0
    ensures a / b <= a && (b >= 2 && a > 0 ==> a / b < a) && (b == 1 ==> a / b == a) && a % b <= a
  {
    var q, r := a / b, a % b;
    assert a == q * b + r;
    MulMonotone(1, b, q);
    if b >= 2 && a > 0 && q >= a { MulMonotone(2, b, q); }
  }

  // The one quotient that does not fit its word.
  predicate QuotientOverflows(a: int, b: int, size: int) { 2 * a == -size && b == -1 }

  lemma QuotientFits(a: int, b: int, size: int)
    requires size > 2 && size % 2 == 0 && IsSigned(a, size) && IsSigned(b, size) && b != 0
    ensures 2 * (Abs(a) / Abs(b)) <= size
    ensures 2 * (Abs(a) / Abs(b)) == size <==> 2 * a == -size && Abs(b) == 1
  {
    MagnitudeOfQuotient(Abs(a), Abs(b));
  }

  // __divsi3
  method Div32(a0: int, b0: int) returns (r: int)
    requires IsSigned(a0, W32) && IsSigned(b0, W32)
    ensures IsSigned(r, W32)
    ensures b0 != 0 ==> r == if QuotientOverflows(a0, b0, W32) then a0 else TruncatedQuotient(a0, b0)
    ensures b0 == 0 ==> r == if a0 == 0 then 1 else 0
  {
    var a, b, neg := a0, b0, false;
    NegatedWord(a0, W32);
    NegatedWord(b0, W32);
    if a < 0 {
      a := Negated(a, W32);
      neg := !neg;
    }
    if b < 0 {
      b := Negated(b, W32);
      neg := !neg;
    }
    var q := UDivMod32(Unsigned(a, W32), Unsigned(b, W32), false);
    if b0 != 0 {
      QuotientFits(a0, b0, W32);
    }
    SignedResult(q, neg, W32);
    r := Signed(q, W32);
    if neg {
      r := Negated(r, W32);
    }
  }

  // __modsi3: the sign is the dividend's.
  method Mod32(a0: int, b0: int) returns (r: int)
    requires IsSigned(a0, W32) && IsSigned(b0, W32)
    ensures IsSigned(r, W32)
    ensures b0 != 0 ==> r == TruncatedRemainder(a0, b0)
    ensures b0 == 0 ==> r == a0
  {
    var a, b, neg := a0, b0, false;
    NegatedWord(a0, W32);
    NegatedWord(b0, W32);
    if a < 0 {
      a := Negated(a, W32);
      neg := true;
    }
    if b < 0 {
      b := Negated(b, W32);
    }
    var m := UDivMod32(Unsigned(a, W32), Unsigned(b, W32), true);
    SignedResult(m, neg, W32);
    r := Signed(m, W32);
    if neg {
      r := Negated(r, W32);
    }
  }

  // __divdi3
  method Div64(num0: int, den0: int) returns (v: int)
    requires IsSigned(num0, W64) && IsSigned(den0, W64)
    ensures IsSigned(v, W64)
    ensures den0 != 0 ==> v == if QuotientOverflows(num0, den0, W64) then num0 else TruncatedQuotient(num0, den0)
    ensures den0 == 0 ==> v == if num0 < 0 then -1 else 1
  {
    var num, den, minus := num0, den0, false;
    NegatedWord(num0, W64);
    NegatedWord(den0, W64);
    if num < 0 {
      num := Negated(num, W64);
      minus := true;
    }
    if den < 0 {
      den := Negated(den, W64);
      minus := !minus;
    }
    var q, _ := UDivMod64(Unsigned(num, W64), Unsigned(den, W64), false, 0);
    if den0 != 0 {
      QuotientFits(num0, den0, W64);
    }
    SignedResult(q, minus, W64);
    v := Signed(q, W64);
    if minus {
      v := Negated(v, W64);
    }
  }

  // __moddi3. It flips the sign for a negative divisor too, which C's remainder does not. For a divisor of zero it
  // returns what its variable v happens to contain, the word v0, or the negative of that.
  method Mod64(num0: int, den0: int, v0: nat) returns (v: int)
    requires IsSigned(num0, W64) && IsSigned(den0, W64) && v0 < W64
    ensures den0 > 0 ==> v == TruncatedRemainder(num0, den0)
    ensures den0 < 0 ==> v == -TruncatedRemainder(num0, den0)
    ensures den0 == 0 ==> v == if num0 < 0 then Negated(Signed(v0, W64), W64) else Signed(v0, W64)
  {
    var num, den, minus := num0, den0, false;
    NegatedWord(num0, W64);
    NegatedWord(den0, W64);
    if num < 0 {
      num := Negated(num, W64);
      minus := true;
    }
    if den < 0 {
      den := Negated(den, W64);
      minus := !minus;
    }
    var _, m := UDivMod64(Unsigned(num, W64), Unsigned(den, W64), true, v0);
    if den0 != 0 { SignedResult(m, minus, W64); }
    v := Signed(m, W64);
    if minus {
      v := Negated(v, W64);
    }
  }

  // So it is C's remainder exactly when the divisor is positive or divides the dividend.
  lemma Mod64IsRemainder(num: int, den: int, v: int)
    requires IsSigned(num, W64) && IsSigned(den, W64) && den != 0
    requires v == if den > 0 then TruncatedRemainder(num, den) else -TruncatedRemainder(num, den)
    ensures v == TruncatedRemainder(num, den) <==> den > 0 || num % den == 0
  {
    SameRemainders(num, den);
  }

  lemma SameRemainders(a: int, b: int)
    requires b != 0
    ensures TruncatedRemainder(a, b) == 0 <==> a % b == 0
  {
    TruncationLaw(a, b);
    var q := TruncatedQuotient(a, b);
    if TruncatedRemainder(a, b) == 0 {
      EuclideanUnique(a, b, q, 0);
    }
    if a % b == 0 {
      var e := a / b;
      assert a == e * b;
      DifferenceOfMultiples(e, q, b, TruncatedRemainder(a, b));
    }
  }

  lemma EuclideanUnique(x: int, d: int, q: int, r: int)
    requires d != 0 && x == q * d + r && 0 <= r < Abs(d)
    ensures x % d == r
  {
    var q', r' := x / d, x % d;
    assert x == q' * d + r' && 0 <= r' < Abs(d);
    assert (q - q') * d == r' - r;
    SmallMultiple(q - q', d);
  }

  lemma SmallMultiple(k: int, d: int)
    requires d != 0 && 0 - Abs(d) < k * d < Abs(d)
    ensures k == 0
  {
    NegatedProducts(k, d);
    if k >= 1 { MulMonotone(1, k, Abs(d)); }
    if k <= -1 { MulMonotone(k, -1, Abs(d)); }
  }

  lemma DifferenceOfMultiples(e: int, q: int, b: int, r: int)
    requires b != 0 && e * b == q * b + r && 0 - Abs(b) < r < Abs(b)
    ensures r == 0
  {
    assert (e - q) * b == r;
    SmallMultiple(e - q, b);
  }

  // ---------------------------------------------------------------- shifting right

  // Bitwise or.
  function Or(x: nat, y: nat): nat {
    if x == 0 then y else if y == 0 then x
    else (if x % 2 == 1 || y % 2 == 1 then 1 else 0) + 2 * Or(x / 2, y / 2)
  }

  lemma {:induction false} OrOfApart(x: nat, y: nat, k: nat)
    requires x < Pow2(k)
    ensures Or(x, y * Pow2(k)) == x + y * Pow2(k)
  {
    if x != 0 && y != 0 {
      assert y * Pow2(k) == 2 * (y * Pow2(k - 1)) by { NextPower(y, k - 1); Associate(2, y, Pow2(k - 1)); }
      MulMonotone(1, Pow2(k), y);
      OrOfApart(x / 2, y, k - 1);
    }
  }

  // What __ashrdi3 makes of a count b: up to 31 the shift it stands for, at 32 the low word under the sign, and from
  // 33 on the shift by 32 less.
  function HelperShift(u: int, b: nat): int {
    if b < 32 then u / Pow2(b)
    else if b == 32 then (if u < 0 then -W32 else 0) + u % W32
    else u / Pow2(b - 32)
  }

  // The processor's shifts use the low five bits of the count.
  function ShiftLeft(x: nat, n: nat): nat { x * Pow2(n % 32) % W32 }
  function ShiftRight(x: int, n: nat): (r: int)
    ensures x >= 0 ==> r >= 0
  {
    Floor(x, Pow2(n % 32))
  }

  function Floor(x: int, d: nat): (r: int)
    requires d > 0
    ensures x >= 0 ==> r >= 0
  {
    x / d
  }

  // __ashrdi3. bm is unsigned, so it is never negative and only a count of 32 takes the first branch.
  method Ashrdi3(u: int, b: nat) returns (r: int)
    requires IsSigned(u, W64) && b < 64
    ensures r == HelperShift(u, b)
  {
    hide Or, Pow2, ShiftLeft, ShiftRight, HelperShift;
    ShiftByNothing(u);
    if b == 0 {
      return u;
    }
    var high, low: nat := u / W32, u % W32;
    var bm := (32 - b) % W32;
    var h: int, l: nat;
    if bm <= 0 {
      ShiftBy32(u);
      h := ShiftRight(high, 31);
      l := ShiftRight(low, (0 - bm) % W32);
    } else {
      WordsShifted(u, b);
      var carries := ShiftLeft(Unsigned(high, W32), bm);
      h := ShiftRight(high, b);
      l := Or(ShiftRight(low, b), carries);
    }
    r := h * W32 + l;
  }

  lemma ShiftByNothing(u: int)
    ensures HelperShift(u, 0) == u
  {
    assert Pow2(0) == 1;
  }

  lemma ShiftBy32(u: int)
    requires IsSigned(u, W64)
    ensures ShiftRight(u / W32, 31) * W32 + ShiftRight(u % W32, 0) == HelperShift(u, 32)
  {
    assert Pow2(0) == 1;
    PowersTo32(31);
    hide Pow2;
    var high := u / W32;
    QuotientUnique(high, Pow2(31), if high < 0 then -1 else 0, if high < 0 then high + Pow2(31) else high);
  }

  lemma WordsShifted(u: int, b: nat)
    requires 0 < b < 64 && b != 32
    ensures (32 - b) % W32 > 0
    ensures var high, low := u / W32, u % W32;
      ShiftRight(high, b) * W32 + Or(ShiftRight(low, b), ShiftLeft(Unsigned(high, W32), (32 - b) % W32))
        == HelperShift(u, b)
  {
    var c: nat := if b < 32 then b else b - 32;
    LowFiveBits(b, c);
    Pow2Sum(c, 32 - c);
    PowersOfWords();
    hide Pow2, Or;
    CarriedOver(u / W32, u % W32, Pow2(c), 32 - c);
  }

  lemma LowFiveBits(b: nat, c: nat)
    requires 0 < b < 64 && b != 32 && c == if b < 32 then b else b - 32
    ensures b % 32 == c && (32 - b) % W32 % 32 == 32 - c && (32 - b) % W32 > 0
  {}

  // The carries are the low c bits of the high word, moved above the rest of the low word.
  lemma CarriedOver(high: int, low: nat, p: nat, k: nat)
    requires p > 0 && low < W32 && p * Pow2(k) == W32
    ensures high / p * W32 + Or(Floor(low, p), (high % W32) * Pow2(k) % W32) == (high * W32 + low) / p
  {
    hide Pow2, Or;
    LowBitsMoved(high, p, Pow2(k));
    BelowQuotient(low, p, Pow2(k));
    OrOfApart(Floor(low, p), high % p, k);
    ShiftTwoWords(high, low, p, Pow2(k));
  }

  lemma LowBitsMoved(high: int, p: nat, t: nat)
    requires p > 0 && t > 0 && p * t == W32
    ensures (high % W32) * t % W32 == (high % p) * t
  {
    var k := high / W32;
    var x := high % W32;
    assert high == k * W32 + x;
    var q, m := x / p, x % p;
    assert x == q * p + m;
    assert x * t == q * W32 + m * t by { Expanded(q, p, m, t); }
    MulStrict(m, p, t);
    MulMonotone(0, m, t);
    QuotientUnique(x * t, W32, q, m * t);
    assert high == (k * t + q) * p + m by { Gathered(k, t, q, p); }
    QuotientUnique(high, p, k * t + q, m);
  }

  lemma Expanded(q: int, p: int, m: int, t: int)
    ensures (q * p + m) * t == q * (p * t) + m * t
  {}

  lemma Gathered(k: int, t: int, q: int, p: int)
    ensures (k * t + q) * p == k * (p * t) + q * p
  {}

  lemma BelowQuotient(low: nat, p: nat, t: nat)
    requires p > 0 && p * t == W32 && low < W32
    ensures low / p < t
  {
    if low / p >= t { MulMonotone(t, low / p, p); }
  }

  lemma ShiftTwoWords(high: int, low: nat, p: nat, t: nat)
    requires p > 0 && p * t == W32
    ensures (high * W32 + low) / p == high / p * W32 + (low / p + (high % p) * t)
  {
    var h, m, l := high / p, high % p, low / p;
    assert high == h * p + m && low == l * p + low % p;
    assert high * W32 == (h * W32 + m * t) * p by {
      Expanded(h, p, m, W32);
      Gathered(h, W32, m * t, p);
      Associate(m, t, p);
    }
    Expanded(1, h * W32 + m * t, l, p);
    QuotientUnique(high * W32 + low, p, h * W32 + m * t + l, low % p);
  }

  // So it is C's arithmetic shift exactly for counts below 32, for 32 when both words are the same, and from 33 on
  // when nothing but sign bits is left after the shorter shift.
  lemma HelperShiftIsShift(u: int, b: nat)
    requires IsSigned(u, W64) && b < 64
    ensures HelperShift(u, b) == u / Pow2(b) <==>
      b < 32 || (b == 32 && u % W32 == u / W32 % W32) || (b > 32 && -1 <= u / Pow2(b - 32) <= 0)
  {
    PowersOfWords();
    hide Pow2;
    if b == 32 {
      var high := u / W32;
      NegatedWord(high, W32);
      QuotientUnique(high, W32, if high < 0 then -1 else 0, if high < 0 then high + W32 else high);
    } else if b > 32 {
      var x := u / Pow2(b - 32);
      Pow2Sum(b - 32, 32);
      QuotientTwice(u, Pow2(b - 32), Pow2(32));
      SelfQuotient(x);
    }
  }

  lemma QuotientTwice(u: int, p: nat, t: nat)
    requires p > 0 && t > 0
    ensures p * t > 0 && u / (p * t) == u / p / t
  {
    var x, m := u / p, u % p;
    var q, n := x / t, x % t;
    assert u == x * p + m && x == q * t + n;
    assert x * p == q * (p * t) + n * p by { Expanded(q, t, n, p); }
    MulMonotone(n, t - 1, p);
    MulMonotone(0, n, p);
    Expanded(1, t, -1, p);
    MulStrict(0, p, t);
    QuotientUnique(u, p * t, q, n * p + m);
  }

  lemma SelfQuotient(x: int)
    ensures x == x / W32 <==> -1 <= x <= 0
  {}

  // ---------------------------------------------------------------- multiplication

  // __mulsi3, shift and add: the product modulo 2^32.
  method Mul32(a0: nat, b0: nat) returns (answer: nat)
    requires a0 < W32 && b0 < W32
    ensures answer == (a0 * b0) % W32
  {
    var a: nat, b: nat := a0, b0;
    answer := 0;
    while b != 0
      invariant 0 <= answer < W32 && (answer + a * b) % W32 == (a0 * b0) % W32
      decreases b
    {
      MulStep(answer, a, b);
      if b % 2 == 1 {
        answer := (answer + a) % W32;
      }
      a := (a * 2) % W32;
      b := b / 2;
    }
  }

  lemma MulStep(answer: nat, a: nat, b: nat)
    requires b > 0
    ensures var answer' := if b % 2 == 1 then (answer + a) % W32 else answer;
      (answer' + (a * 2) % W32 * (b / 2)) % W32 == (answer + a * b) % W32
  {
    var h, s := b / 2, if b % 2 == 1 then answer + a else answer;
    assert b == 2 * h + b % 2;
    SplitProduct(a, h);
    assert s + (a * 2) * h == answer + a * b;
    ModWithin(s, a * 2, h);
    if b % 2 == 0 {
      ModOfSum(answer, (a * 2) % W32 * h);
    }
  }

  lemma SplitProduct(a: nat, h: nat)
    ensures a * (2 * h + 1) == a + (a * 2) * h && a * (2 * h) == (a * 2) * h
  {}

  lemma ModOfSum(x: int, y: int)
    ensures (x % W32 + y) % W32 == (x + y) % W32
  {}

  lemma ModWithin(s: int, x: int, h: int)
    ensures (s % W32 + x % W32 * h) % W32 == (s + x * h) % W32
    ensures (s + x % W32 * h) % W32 == (s + x * h) % W32
  {
    var k := x / W32;
    assert x == k * W32 + x % W32;
    Expand(k, x % W32, h);
    AddMultiples(s + x % W32 * h, k * h);
    ModOfSum(s, x % W32 * h);
  }

  lemma Expand(k: int, m: int, h: int)
    ensures (k * W32 + m) * h == m * h + (k * h) * W32
  {}

  lemma AddMultiples(x: int, k: int)
    ensures (x + k * W32) % W32 == x % W32
  {
    QuotientUnique(x + k * W32, W32, x / W32 + k, x % W32);
  }

  // __muldsi3: the two words of the 64-bit product, from four products of half words.
  method MulWide(a: nat, b: nat) returns (high: nat, low: nat)
    requires a < W32 && b < W32
    ensures low < W32 && high < W32 && high * W32 + low == a * b
  {
    PartialProducts(a, b);
    WideBound(a, b);
    high, low := MulHalves(a % W16, a / W16, b % W16, b / W16, a * b);
  }

  method MulHalves(al: nat, ah: nat, bl: nat, bh: nat, ghost product: nat) returns (high: nat, low: nat)
    requires al < W16 && ah < W16 && bl < W16 && bh < W16 && product < W64
    requires product == al * bl + (ah * bl + bh * al) * W16 + (ah * bh) * W32
    ensures low < W32 && high < W32 && high * W32 + low == product
  {
    HalfProduct16(al, bl);
    HalfProduct16(ah, bl);
    HalfProduct16(bh, al);
    HalfProduct16(ah, bh);
    high, low := AddPartials((al * bl) % W32, (ah * bl) % W32, (bh * al) % W32, (ah * bh) % W32, product);
  }

  // The half word l with the low half of t put above it.
  function Join(l: nat, t: nat): nat { (l + ((t % W16) * W16) % W32) % W32 }

  lemma Joined(l: nat, t: nat)
    requires l < W16
    ensures Join(l, t) == l + (t % W16) * W16 && Join(l, t) / W16 == t % W16 && Join(l, t) % W16 == l
  {}

  // The additions of __muldsi3: none of them wraps.
  method AddPartials(p0: nat, p1: nat, p2: nat, p3: nat, ghost product: nat) returns (high: nat, low: nat)
    requires p0 <= 0xFFFE_0001 && p1 <= 0xFFFE_0001 && p2 <= 0xFFFE_0001 && p3 <= 0xFFFE_0001
    requires product == p0 + (p1 + p2) * W16 + p3 * W32 && product < W64
    ensures low < W32 && high < W32 && high * W32 + low == product
  {
    hide Join;
    ghost var t1: nat := p0 / W16 + p1;
    ghost var t2: nat := t1 % W16 + p2;
    WideSum(p0, p1, p2, p3, t1, t2, product);
    var t: nat;
    t, low := AddPartial(p0 % W16, p0 / W16, p1);
    high := t / W16;
    t, low := AddPartial(low % W16, low / W16, p2);
    NoWrap(high, t / W16, p3);
    high := (high + t / W16) % W32;
    high := (high + p3) % W32;
  }

  lemma NoWrap(x: nat, y: nat, z: nat)
    requires x + y + z < W32
    ensures ((x + y) % W32 + z) % W32 == x + y + z
  {}

  // t += a product of half words, whose low half then goes above the low half word of the result.
  method AddPartial(l: nat, carry: nat, p: nat) returns (t: nat, low: nat)
    requires l < W16 && carry < W16 && p <= 0xFFFE_0001
    ensures t == carry + p < W32 && low == l + (t % W16) * W16 && low / W16 == t % W16 && low % W16 == l
  {
    t := (carry + p) % W32;
    Joined(l, t);
    low := Join(l, t);
  }

  lemma WideSum(p0: nat, p1: nat, p2: nat, p3: nat, t1: nat, t2: nat, product: nat)
    requires t1 == p0 / W16 + p1 && t2 == t1 % W16 + p2
    requires product == p0 + (p1 + p2) * W16 + p3 * W32 && product < W64
    ensures (t1 / W16 + t2 / W16 + p3) * W32 + (p0 % W16 + (t2 % W16) * W16) == product
    ensures t1 / W16 + t2 / W16 + p3 < W32
  {}

  lemma HalfProduct16(x: nat, y: nat)
    requires x < W16 && y < W16
    ensures x * y <= 0xFFFE_0001 && (x * y) % W32 == x * y
  {
    MulMonotone(x, 0xFFFF, y);
  }

  lemma PartialProducts(a: nat, b: nat)
    ensures var al, ah, bl, bh := a % W16, a / W16, b % W16, b / W16;
      a * b == al * bl + (ah * bl + bh * al) * W16 + (ah * bh) * W32
  {
    var al, ah, bl, bh := a % W16, a / W16, b % W16, b / W16;
    assert a == ah * W16 + al && b == bh * W16 + bl;
    ProductOfSums(ah, al, bh, bl, W16);
    Associate(ah * bh, W16, W16);
  }

  lemma ProductOfSums(ah: int, al: int, bh: int, bl: int, w: int)
    ensures (ah * w + al) * (bh * w + bl) == al * bl + (ah * bl + bh * al) * w + (ah * bh) * w * w
  {
    Distribute(ah * w, al, bh * w + bl);
    Distribute(bh * w, bl, ah * w);
    Distribute(bh * w, bl, al);
    Exchange(ah, w, bh);
    Exchange(ah, w, bl);
    Distribute(ah * bl, bh * al, w);
    Exchange(bh, w, al);
    assert (ah * w) * (bh * w) == (ah * bh) * w * w by { Shuffle(ah, bh, w); }
  }

  lemma Distribute(x: int, y: int, z: int)
    ensures (x + y) * z == x * z + y * z && z * (x + y) == x * z + y * z
  {}

  lemma Exchange(x: int, y: int, z: int)
    ensures (x * y) * z == (x * z) * y
  {}

  lemma Shuffle(x: int, y: int, w: int)
    ensures (x * w) * (y * w) == (x * y) * w * w
  {
    Associate(x * w, y, w);
    Exchange(x, w, y);
  }

  lemma WideBound(a: nat, b: nat)
    requires a < W32 && b < W32
    ensures a * b < W64
  {
    MulMonotone(a, W32 - 1, b);
  }

  // __muldi3: the 64-bit product modulo 2^64.
  method Mul64(a: int, b: int) returns (r: int)
    requires IsSigned(a, W64) && IsSigned(b, W64)
    ensures IsSigned(r, W64) && Unsigned(r, W64) == Unsigned(a * b, W64)
  {
    var x, y := Unsigned(a, W64), Unsigned(b, W64);
    var xl, xh, yl, yh := x % W32, x / W32, y % W32, y / W32;
    var high, low := MulWide(xl, yl);
    var c1 := Mul32(xh, yl);
    var c2 := Mul32(xl, yh);
    var high' := (high + c1 + c2) % W32;
    r := Signed(high' * W32 + low, W64);
    CrossProducts(x, y, high, low);
    UnsignedProduct(a, b);
    UnsignedOfSigned(high' * W32 + low);
  }

  lemma UnsignedOfSigned(w: nat)
    requires w < W64
    ensures Unsigned(Signed(w, W64), W64) == w
  {}

  lemma CrossProducts(x: nat, y: nat, high: nat, low: nat)
    requires x < W64 && y < W64 && low < W32 && high * W32 + low == (x % W32) * (y % W32)
    ensures var xl, xh, yl, yh := x % W32, x / W32, y % W32, y / W32;
      ((high + (xh * yl) % W32 + (xl * yh) % W32) % W32) * W32 + low == (x * y) % W64
  {
    WordsOf(x);
    WordsOf(y);
    CrossWords(x % W32, x / W32, y % W32, y / W32, high, low);
  }

  lemma WordsOf(x: nat)
    ensures x == x / W32 * W32 + x % W32
  {}

  lemma CrossWords(xl: nat, xh: nat, yl: nat, yh: nat, high: nat, low: nat)
    requires low < W32 && high * W32 + low == xl * yl
    ensures ((high + (xh * yl) % W32 + (xl * yh) % W32) % W32) * W32 + low ==
            ((xh * W32 + xl) * (yh * W32 + yl)) % W64
  {
    ProductOfSums(xh, xl, yh, yl, W32);
    assert yh * xl == xl * yh;
    FoldHigh(high, xh * yl, xl * yh, xh * yh, low, (xh * W32 + xl) * (yh * W32 + yl));
  }

  lemma FoldHigh(high: nat, c1: nat, c2: nat, top: nat, low: nat, product: nat)
    requires low < W32 && product == high * W32 + low + (c1 + c2) * W32 + top * W32 * W32
    ensures ((high + c1 % W32 + c2 % W32) % W32) * W32 + low == product % W64
  {
    var all := high + c1 + c2;
    ModOfSum(c1, high + c2 % W32);
    ModOfSum(c2, high + c1);
    assert (high + c1 % W32 + c2 % W32) % W32 == all % W32;
    var k := all / W32;
    assert all == k * W32 + all % W32;
    QuotientUnique(product, W64, k + top, (all % W32) * W32 + low);
  }

  lemma UnsignedProduct(a: int, b: int)
    ensures (Unsigned(a, W64) * Unsigned(b, W64)) % W64 == Unsigned(a * b, W64)
  {
    var k, l, x, y := a / W64, b / W64, a % W64, b % W64;
    assert a == k * W64 + x && b == l * W64 + y;
    ProductOfSums(k, x, l, y, W64);
    QuotientUnique(a * b, W64, (x * y) / W64 + k * y + l * x + k * l * W64, (x * y) % W64);
  }
}

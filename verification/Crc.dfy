/**
 icrc1 and icrc of app/malardalen/crc.c: the 16-bit CRC with polynomial 0x1021, bit by bit and by table, forwards
 (jrev >= 0) and with bits reversed (jrev < 0).
 */
module Crc {

  function Xor(x: bv16, y: bv16): bv16 { x ^ y }
  function XorByte(x: bv8, y: bv8): bv8 { x ^ y }

  function HiByte(x: bv16): bv8 { ((x >> 8) & 0xFF) as bv8 }
  function LoByte(x: bv16): bv8 { (x & 0xFF) as bv8 }
  function High(b: bv8): bv16 { (b as bv16) << 8 }
  function Low(b: bv8): bv16 { b as bv16 }

  // One bit of the division by the polynomial, most significant bit first.
  function Step(x: bv16): bv16 {
    if x & 0x8000 != 0 then (x << 1) ^ 0x1021 else x << 1
  }

  function Steps(n: nat, x: bv16): bv16 { if n == 0 then x else Step(Steps(n - 1, x)) }

  // icrc1: the CRC after one more byte.
  function WithByte(crc: bv16, ch: bv8): bv16 { Steps(8, Xor(crc, High(ch))) }

  // The CRC of a message, byte by byte.
  function Fold(crc: bv16, msg: seq<bv8>): bv16 {
    if msg == [] then crc else WithByte(Fold(crc, msg[..|msg| - 1]), msg[|msg| - 1])
  }

  // ---------------------------------------------------------------- linearity

  lemma Commute(x: bv16, y: bv16)
    ensures Xor(x, y) == Xor(y, x)
  {}

  lemma Associate(x: bv16, y: bv16, z: bv16)
    ensures Xor(Xor(x, y), z) == Xor(x, Xor(y, z))
  {}

  lemma Swap(a: bv16, b: bv16, c: bv16, d: bv16)
    ensures Xor(Xor(a, b), Xor(c, d)) == Xor(Xor(a, c), Xor(b, d))
  {
    hide Xor;
    Associate(a, b, Xor(c, d));
    Associate(b, c, d);
    Commute(b, c);
    Associate(c, b, d);
    Associate(a, c, Xor(b, d));
  }

  function Shifted(x: bv16): bv16 { x << 1 }
  function Reduction(x: bv16): bv16 { if x & 0x8000 != 0 then 0x1021 else 0 }

  lemma StepParts(x: bv16)
    ensures Step(x) == Xor(Shifted(x), Reduction(x))
  {
    XorZero(Shifted(x));
    hide Xor;
    if x & 0x8000 != 0 {
      assert Xor(x << 1, 0x1021) == (x << 1) ^ 0x1021 by { XorIs(x << 1, 0x1021); }
    } else {
      assert Reduction(x) == 0;
    }
  }

  lemma XorZero(x: bv16)
    ensures Xor(x, 0) == x && Xor(x, x) == 0
  {}

  lemma XorIs(x: bv16, y: bv16)
    ensures Xor(x, y) == x ^ y
  {}

  lemma ShiftXors(x: bv16, y: bv16)
    ensures Shifted(Xor(x, y)) == Xor(Shifted(x), Shifted(y))
  {}

  lemma ReductionXors(x: bv16, y: bv16)
    ensures Reduction(Xor(x, y)) == Xor(Reduction(x), Reduction(y))
  {
    TopBitXors(x, y);
    XorZero(Reduction(x));
    XorZero(Reduction(y));
    hide Xor;
    Commute(Reduction(x), Reduction(y));
  }

  lemma TopBitXors(x: bv16, y: bv16)
    ensures (Xor(x, y) & 0x8000 != 0) == ((x & 0x8000 != 0) != (y & 0x8000 != 0))
  {}

  lemma StepXors(x: bv16, y: bv16)
    ensures Step(Xor(x, y)) == Xor(Step(x), Step(y))
  {
    hide *;
    StepParts(x);
    StepParts(y);
    StepParts(Xor(x, y));
    ShiftXors(x, y);
    ReductionXors(x, y);
    Swap(Shifted(x), Reduction(x), Shifted(y), Reduction(y));
  }

  lemma {:induction false} StepsXor(n: nat, x: bv16, y: bv16)
    ensures Steps(n, Xor(x, y)) == Xor(Steps(n, x), Steps(n, y))
  {
    hide Xor, Step;
    if n > 0 {
      StepsXor(n - 1, x, y);
      StepXors(Steps(n - 1, x), Steps(n - 1, y));
    }
  }

  // Eight steps move a low byte up; no bit reaches the top before.
  lemma LowByteMovesUp(b: bv8)
    ensures Steps(8, Low(b)) == High(b)
  {
    ShiftSteps(b);
    hide Step, Low, High;
    var x := Low(b);
    assert Steps(1, x) == Step(x);
    assert Steps(2, x) == Step(Step(x));
    assert Steps(4, x) == Step(Step(Steps(2, x)));
    assert Steps(6, x) == Step(Step(Steps(4, x)));
  }

  lemma ShiftSteps(b: bv8)
    ensures Step(Step(Step(Step(Step(Step(Step(Step(Low(b)))))))))  == High(b)
  {}

  lemma Split(crc: bv16, ch: bv8)
    ensures Xor(crc, High(ch)) == Xor(High(XorByte(HiByte(crc), ch)), Low(LoByte(crc)))
  {
    hide *;
    var h, l := High(HiByte(crc)), Low(LoByte(crc));
    WordOfBytes(crc);
    Associate(h, l, High(ch));
    Commute(l, High(ch));
    Associate(h, High(ch), l);
    HighXors(HiByte(crc), ch);
  }

  lemma WordOfBytes(x: bv16)
    ensures x == Xor(High(HiByte(x)), Low(LoByte(x)))
  {}

  lemma HighXors(a: bv8, b: bv8)
    ensures High(XorByte(a, b)) == Xor(High(a), High(b))
  {}

  lemma LowXors(a: bv8, b: bv8)
    ensures Low(XorByte(a, b)) == Xor(Low(a), Low(b))
  {}

  // One table look-up in place of eight steps.
  lemma TableStep(crc: bv16, ch: bv8)
    ensures WithByte(crc, ch) == Xor(Steps(8, High(XorByte(HiByte(crc), ch))), High(LoByte(crc)))
  {
    hide Steps, Xor, High, Low, HiByte, LoByte, XorByte;
    Split(crc, ch);
    StepsXor(8, High(XorByte(HiByte(crc), ch)), Low(LoByte(crc)));
    LowByteMovesUp(LoByte(crc));
  }

  // ---------------------------------------------------------------- a message with its own CRC

  lemma FoldAppend(crc: bv16, msg: seq<bv8>, ch: bv8)
    ensures Fold(crc, msg + [ch]) == WithByte(Fold(crc, msg), ch)
  {
    assert (msg + [ch])[..|msg|] == msg;
  }

  lemma CancelsHigh(c: bv16)
    ensures Xor(c, High(HiByte(c))) == Low(LoByte(c)) && Xor(High(LoByte(c)), High(LoByte(c))) == 0
  {}

  lemma {:induction false} StepsOfZero(n: nat)
    ensures Steps(n, 0) == 0
  {
    if n > 0 { StepsOfZero(n - 1); }
  }

  // Followed by the high and the low byte of its CRC, a message has CRC zero.
  lemma ResidueIsZero(crc: bv16, msg: seq<bv8>)
    ensures var c := Fold(crc, msg); Fold(crc, msg + [HiByte(c), LoByte(c)]) == 0
  {
    hide Steps, Xor, High, Low, HiByte, LoByte, Fold;
    var c := Fold(crc, msg);
    FoldAppend(crc, msg, HiByte(c));
    FoldAppend(crc, msg + [HiByte(c)], LoByte(c));
    assert msg + [HiByte(c), LoByte(c)] == msg + [HiByte(c)] + [LoByte(c)];
    CancelsHigh(c);
    LowByteMovesUp(LoByte(c));
    StepsOfZero(8);
  }

  // ---------------------------------------------------------------- reversed bits

  function Reversed(b: bv8): bv8 {
    ((b & 1) << 7) | ((b & 2) << 5) | ((b & 4) << 3) | ((b & 8) << 1) |
    ((b & 16) >> 1) | ((b & 32) >> 3) | ((b & 64) >> 5) | ((b & 128) >> 7)
  }

  // rchr[HIBYTE(x)] | rchr[LOBYTE(x)] << 8: all sixteen bits reversed.
  function Reversed16(x: bv16): bv16 { Xor(Low(Reversed(HiByte(x))), High(Reversed(LoByte(x)))) }

  // One bit of the division, least significant bit first.
  function StepBack(x: bv16): bv16 {
    if x & 1 != 0 then (x >> 1) ^ 0x8408 else x >> 1
  }

  function StepsBack(n: nat, x: bv16): bv16 { if n == 0 then x else StepBack(StepsBack(n - 1, x)) }

  function WithByteBack(crc: bv16, ch: bv8): bv16 { StepsBack(8, Xor(crc, Low(ch))) }

  function FoldBack(crc: bv16, msg: seq<bv8>): bv16 {
    if msg == [] then crc else WithByteBack(FoldBack(crc, msg[..|msg| - 1]), msg[|msg| - 1])
  }

  function ReversedAll(msg: seq<bv8>): (r: seq<bv8>)
    ensures |r| == |msg| && forall k :: 0 <= k < |r| ==> r[k] == Reversed(msg[k])
  {
    seq(|msg|, k requires 0 <= k < |msg| => Reversed(msg[k]))
  }

  lemma ReversedTwice(b: bv8)
    ensures Reversed(Reversed(b)) == b
  {}

  lemma BytesOfWord(a: bv8, b: bv8)
    ensures var w := Xor(Low(a), High(b)); LoByte(w) == a && HiByte(w) == b
  {}

  lemma Reversed16Twice(x: bv16)
    ensures Reversed16(Reversed16(x)) == x
  {
    hide Reversed, Xor, Low, High, HiByte, LoByte;
    BytesOfWord(Reversed(HiByte(x)), Reversed(LoByte(x)));
    ReversedTwice(HiByte(x));
    ReversedTwice(LoByte(x));
    WordOfBytes(x);
    Commute(High(HiByte(x)), Low(LoByte(x)));
  }

  lemma ReversedXors(a: bv8, b: bv8)
    ensures Reversed(XorByte(a, b)) == XorByte(Reversed(a), Reversed(b))
  {}

  lemma BytesXor(x: bv16, y: bv16)
    ensures HiByte(Xor(x, y)) == XorByte(HiByte(x), HiByte(y)) && LoByte(Xor(x, y)) == XorByte(LoByte(x), LoByte(y))
  {}

  lemma Reversed16Xors(x: bv16, y: bv16)
    ensures Reversed16(Xor(x, y)) == Xor(Reversed16(x), Reversed16(y))
  {
    hide Reversed, Xor, XorByte, Low, High, HiByte, LoByte;
    BytesXor(x, y);
    ReversedXors(HiByte(x), HiByte(y));
    ReversedXors(LoByte(x), LoByte(y));
    LowXors(Reversed(HiByte(x)), Reversed(HiByte(y)));
    HighXors(Reversed(LoByte(x)), Reversed(LoByte(y)));
    Swap(Low(Reversed(HiByte(x))), Low(Reversed(HiByte(y))), High(Reversed(LoByte(x))), High(Reversed(LoByte(y))));
  }

  function ShiftedBack(x: bv16): bv16 { x >> 1 }
  function ReductionBack(x: bv16): bv16 { if x & 1 != 0 then 0x8408 else 0 }

  lemma StepBackParts(x: bv16)
    ensures StepBack(x) == Xor(ShiftedBack(x), ReductionBack(x))
  {
    XorZero(ShiftedBack(x));
    hide Xor;
    if x & 1 != 0 {
      assert Xor(x >> 1, 0x8408) == (x >> 1) ^ 0x8408 by { XorIs(x >> 1, 0x8408); }
    } else {
      assert ReductionBack(x) == 0;
    }
  }

  lemma ReversedShift(x: bv16)
    ensures Reversed16(Shifted(x)) == ShiftedBack(Reversed16(x))
  {}

  lemma ReversedReduction(x: bv16)
    ensures Reversed16(Reduction(x)) == ReductionBack(Reversed16(x))
  {}

  lemma ReversedStep(x: bv16)
    ensures Reversed16(Step(x)) == StepBack(Reversed16(x))
  {
    hide *;
    StepParts(x);
    StepBackParts(Reversed16(x));
    Reversed16Xors(Shifted(x), Reduction(x));
    ReversedShift(x);
    ReversedReduction(x);
  }

  lemma ReversedHigh(b: bv8)
    ensures Reversed16(High(Reversed(b))) == Low(b)
  {}

  lemma ReversedXor(x: bv16, b: bv8)
    ensures Reversed16(Xor(x, High(Reversed(b)))) == Xor(Reversed16(x), Low(b))
  {
    hide *;
    Reversed16Xors(x, High(Reversed(b)));
    ReversedHigh(b);
  }

  lemma {:induction false} ReversedSteps(n: nat, x: bv16)
    ensures Reversed16(Steps(n, x)) == StepsBack(n, Reversed16(x))
  {
    hide Reversed16, Step, StepBack;
    if n > 0 {
      ReversedSteps(n - 1, x);
      ReversedStep(Steps(n - 1, x));
    }
  }

  // Reversing the start, every byte and the result turns one division into the other.
  lemma {:induction false} ReversedFold(crc: bv16, msg: seq<bv8>)
    ensures Reversed16(Fold(crc, ReversedAll(msg))) == FoldBack(Reversed16(crc), msg)
  {
    hide Reversed, Reversed16, Xor, High, Low, Steps, StepsBack;
    if msg != [] {
      var n := |msg| - 1;
      ReversedFold(crc, msg[..n]);
      assert ReversedAll(msg)[..n] == ReversedAll(msg[..n]);
      var before := Fold(crc, ReversedAll(msg[..n]));
      ReversedSteps(8, Xor(before, High(Reversed(msg[n]))));
      ReversedXor(before, msg[n]);
    }
  }

  // ---------------------------------------------------------------- the functions of the source

  // icrc1
  method Icrc1(crc: bv16, onech: bv8) returns (ans: bv16)
    ensures ans == WithByte(crc, onech)
  {
    hide Step, Xor, High;
    ans := Xor(crc, High(onech));
    ghost var start := ans;
    var i := 0;
    while i < 8
      invariant 0 <= i <= 8 && ans == Steps(i, start)
    {
      StepIs(ans);
      if ans & 0x8000 != 0 {
        ans := (ans << 1) ^ 0x1021;
      } else {
        ans := ans << 1;
      }
      i := i + 1;
    }
  }

  lemma StepIs(x: bv16)
    ensures Step(x) == if x & 0x8000 != 0 then (x << 1) ^ 0x1021 else x << 1
  {}

  // ((uchar) jinit) | ((uchar) jinit) << 8
  function Both(b: bv8): bv16 { Xor(Low(b), High(b)) }
  function InitByte(jinit: int): bv8 { (jinit % 256) as bv8 }

  function Start(crc: bv16, jinit: int): bv16 { if jinit >= 0 then Both(InitByte(jinit)) else crc }
  function StartBack(crc: bv16, jinit: int): bv16 { if jinit >= 0 then Both(Reversed(InitByte(jinit))) else crc }

  // Both bytes of the start are the low byte of a jinit that is not negative, reversed for the other direction;
  // otherwise it is the CRC handed in.
  lemma StartBytes(crc: bv16, jinit: int)
    ensures jinit >= 0 ==> HiByte(Start(crc, jinit)) == (jinit % 256) as bv8 == LoByte(Start(crc, jinit))
    ensures jinit >= 0 ==>
      HiByte(StartBack(crc, jinit)) == Reversed((jinit % 256) as bv8) == LoByte(StartBack(crc, jinit))
    ensures jinit < 0 ==> Start(crc, jinit) == crc && StartBack(crc, jinit) == crc
  {
    hide Reversed, Xor, Low, High, HiByte, LoByte;
    BytesOfWord(InitByte(jinit), InitByte(jinit));
    BytesOfWord(Reversed(InitByte(jinit)), Reversed(InitByte(jinit)));
  }

  // Bit by bit.
  lemma ReversedBits(b: bv8)
    ensures (Reversed(b) & 1 != 0) == (b & 128 != 0) && (Reversed(b) & 2 != 0) == (b & 64 != 0)
    ensures (Reversed(b) & 4 != 0) == (b & 32 != 0) && (Reversed(b) & 8 != 0) == (b & 16 != 0)
    ensures (Reversed(b) & 16 != 0) == (b & 8 != 0) && (Reversed(b) & 32 != 0) == (b & 4 != 0)
    ensures (Reversed(b) & 64 != 0) == (b & 2 != 0) && (Reversed(b) & 128 != 0) == (b & 1 != 0)
  {}

  // The usual check value: the CRC of the characters 1 to 9.
  lemma CheckValue()
    ensures Fold(0, [0x31, 0x32, 0x33, 0x34, 0x35, 0x36, 0x37, 0x38, 0x39]) == 0x31C3
  {
    FirstBytes();
    LastBytes();
    hide WithByte, Fold;
    FoldNothing(0);
    FoldAppend(0, [], 0x31);
    assert [] + [0x31 as bv8] == [0x31];
    FoldAppend(0, [0x31], 0x32);
    assert [0x31 as bv8] + [0x32] == [0x31, 0x32];
    FoldAppend(0, [0x31, 0x32], 0x33);
    assert [0x31 as bv8, 0x32] + [0x33] == [0x31, 0x32, 0x33];
    FoldAppend(0, [0x31, 0x32, 0x33], 0x34);
    assert [0x31 as bv8, 0x32, 0x33] + [0x34] == [0x31, 0x32, 0x33, 0x34];
    FoldAppend(0, [0x31, 0x32, 0x33, 0x34], 0x35);
    assert [0x31 as bv8, 0x32, 0x33, 0x34] + [0x35] == [0x31, 0x32, 0x33, 0x34, 0x35];
    FoldAppend(0, [0x31, 0x32, 0x33, 0x34, 0x35], 0x36);
    assert [0x31 as bv8, 0x32, 0x33, 0x34, 0x35] + [0x36] == [0x31, 0x32, 0x33, 0x34, 0x35, 0x36];
    FoldAppend(0, [0x31, 0x32, 0x33, 0x34, 0x35, 0x36], 0x37);
    assert [0x31 as bv8, 0x32, 0x33, 0x34, 0x35, 0x36] + [0x37] == [0x31, 0x32, 0x33, 0x34, 0x35, 0x36, 0x37];
    FoldAppend(0, [0x31, 0x32, 0x33, 0x34, 0x35, 0x36, 0x37], 0x38);
    assert [0x31 as bv8, 0x32, 0x33, 0x34, 0x35, 0x36, 0x37] + [0x38]
        == [0x31, 0x32, 0x33, 0x34, 0x35, 0x36, 0x37, 0x38];
    FoldAppend(0, [0x31, 0x32, 0x33, 0x34, 0x35, 0x36, 0x37, 0x38], 0x39);
    assert [0x31 as bv8, 0x32, 0x33, 0x34, 0x35, 0x36, 0x37, 0x38] + [0x39]
        == [0x31, 0x32, 0x33, 0x34, 0x35, 0x36, 0x37, 0x38, 0x39];
  }

  lemma FirstBytes()
    ensures WithByte(0x0000, 0x31) == 0x2672 && WithByte(0x2672, 0x32) == 0x20B5 && WithByte(0x20B5, 0x33) == 0x9752
    ensures WithByte(0x9752, 0x34) == 0xD789
  {}

  lemma LastBytes()
    ensures WithByte(0xD789, 0x35) == 0x546C && WithByte(0x546C, 0x36) == 0x20E4 && WithByte(0x20E4, 0x37) == 0x86D6
    ensures WithByte(0x86D6, 0x38) == 0x9015 && WithByte(0x9015, 0x39) == 0x31C3
  {}

  lemma StartOfZero()
    ensures Both(InitByte(0)) == 0
  {}

  lemma ReversedBoth(b: bv8)
    ensures Reversed16(Both(b)) == Both(Reversed(b))
  {
    hide Reversed, Xor, Low, High, HiByte, LoByte;
    BytesOfWord(b, b);
  }

  lemma BackwardsResult(crc: bv16, jinit: int, msg: seq<bv8>)
    ensures var start := if jinit >= 0 then Both(InitByte(jinit)) else Reversed16(crc);
      Reversed16(Fold(start, ReversedAll(msg))) == FoldBack(StartBack(crc, jinit), msg)
  {
    hide Reversed16, Both, InitByte, Fold, FoldBack, ReversedAll, Reversed;
    if jinit >= 0 {
      ReversedBoth(InitByte(jinit));
      ReversedFold(Both(InitByte(jinit)), msg);
    } else {
      Reversed16Twice(crc);
      ReversedFold(Reversed16(crc), msg);
    }
  }

  lemma FoldNothing(crc: bv16)
    ensures Fold(crc, []) == crc
  {}

  lemma FoldNext(crc: bv16, msg: seq<bv8>, n: nat)
    requires n < |msg|
    ensures Fold(crc, msg[..n + 1]) == WithByte(Fold(crc, msg[..n]), msg[n])
  {
    hide WithByte, Fold;
    assert msg[..n + 1] == msg[..n] + [msg[n]];
    FoldAppend(crc, msg[..n], msg[n]);
  }

  // The table it: a nibble's bits reversed.
  const NIBBLES: seq<bv8> := [0, 8, 4, 12, 2, 10, 6, 14, 1, 9, 5, 13, 3, 11, 7, 15]

  function Nibble(n: bv8): bv8 { ((n & 1) << 3) | ((n & 2) << 1) | ((n & 4) >> 1) | ((n & 8) >> 3) }

  lemma NibblesReverse(i: int)
    requires 0 <= i < 16
    ensures NIBBLES[i] == Nibble(i as bv8)
  {
    assert NIBBLES[0] == Nibble(0) && NIBBLES[1] == Nibble(1) && NIBBLES[2] == Nibble(2) && NIBBLES[3] == Nibble(3);
    assert NIBBLES[4] == Nibble(4) && NIBBLES[5] == Nibble(5) && NIBBLES[6] == Nibble(6) && NIBBLES[7] == Nibble(7);
    assert NIBBLES[8] == Nibble(8) && NIBBLES[9] == Nibble(9) && NIBBLES[10] == Nibble(10) && NIBBLES[11] == Nibble(11);
    assert NIBBLES[12] == Nibble(12) && NIBBLES[13] == Nibble(13);
    assert NIBBLES[14] == Nibble(14) && NIBBLES[15] == Nibble(15);
  }

  lemma NibbleIndex(n: bv8)
    requires n < 16
    ensures 0 <= n as int < 16 && (n as int) as bv8 == n
  {}

  lemma ByteOfNibbles(b: bv8)
    ensures (Nibble(b & 0xF) << 4) | Nibble(b >> 4) == Reversed(b)
  {}

  class Register {
    var init: bool
    const icrctb: array<bv16>
    const rchr: array<bv8>
    const lin: array<bv8>

    constructor ()
      ensures Valid() && !init && fresh(icrctb) && fresh(rchr) && fresh(lin)
    {
      init := false;
      icrctb, rchr, lin := new bv16[256], new bv8[256], new bv8[256];
    }

    // Once initialized, the tables stay right.
    ghost predicate Valid()
      reads this, icrctb, rchr
    {
      && icrctb.Length == 256 && rchr.Length == 256 && lin.Length == 256 && lin != rchr
      && (init ==> forall b: bv8 :: Tabulated(b))
    }

    ghost predicate Tabulated(b: bv8)
      requires icrctb.Length == 256 && rchr.Length == 256
      reads icrctb, rchr
    {
      icrctb[b as int] == Steps(8, High(b)) && rchr[b as int] == Reversed(b)
    }

    // The first part of icrc: both tables, on the first call.
    method Initialize()
      requires Valid()
      modifies this`init, icrctb, rchr
      ensures Valid() && init && lin[..] == old(lin[..])
    {
      hide Steps, High, Reversed;
      if init { return; }
      var j, ch := 0, 0 as bv8;
      while j <= 255
        invariant 0 <= j <= 256 && (j < 256 ==> ch as int == j)
        invariant forall b: bv8 :: b as int < j ==> Tabulated(b)
        invariant lin[..] == old(lin[..])
      {
        label before:
        StoreEntry(j, ch);
        forall b: bv8 | b as int < j + 1
          ensures Tabulated(b)
        {
          if b as int == j {
            SameIndex(b, ch);
          } else {
            assert old@before(Tabulated(b));
          }
        }
        NextIndex(ch);
        j := j + 1;
        ch := ch + 1;
      }
      forall b: bv8
        ensures Tabulated(b)
      {
        ByteRange(b);
      }
      init := true;
    }

    // icrctb[j] and rchr[j], where ch is j as a byte.
    method StoreEntry(j: int, ch: bv8)
      requires icrctb.Length == 256 && rchr.Length == 256 && 0 <= j < 256 && ch as int == j
      modifies icrctb, rchr
      ensures icrctb[j] == Steps(8, High(ch)) && rchr[j] == Reversed(ch)
      ensures forall k :: 0 <= k < 256 && k != j ==> icrctb[k] == old(icrctb[k]) && rchr[k] == old(rchr[k])
    {
      hide Steps, High, Reversed;
      var word := High(ch);
      var entry := Icrc1(word, 0);
      EntryOfTable(ch);
      icrctb[j] := entry;
      var reversed := ReverseByTable(ch);
      rchr[j] := reversed;
    }

    // icrc on bytes 1 to len of lin. A negative jinit keeps crc as the start; a negative jrev reverses all bits.
    method Icrc(crc: bv16, len: nat, jinit: int, jrev: int) returns (r: bv16)
      requires Valid() && len < 256
      modifies this`init, icrctb, rchr
      ensures Valid() && init && lin[..] == old(lin[..])
      ensures jrev >= 0 ==> r == Fold(Start(crc, jinit), lin[1..len + 1])
      ensures jrev < 0 ==> r == FoldBack(StartBack(crc, jinit), lin[1..len + 1])
      ensures jinit >= 0 ==> HiByte(Start(crc, jinit)) == (jinit % 256) as bv8 == LoByte(Start(crc, jinit))
    {
      StartBytes(crc, jinit);
      hide Fold, FoldBack, ReversedAll, Reversed16, Both, InitByte;
      Initialize();
      var cword := crc;
      if jinit >= 0 {
        cword := Both(InitByte(jinit));
      } else if jrev < 0 {
        cword := ReverseWord(cword);
      }
      ghost var start, msg := cword, lin[1..len + 1];
      ghost var m := if jrev < 0 then ReversedAll(msg) else msg;
      FoldNothing(start);
      var j := 1;
      while j <= len
        invariant 1 <= j <= len + 1 && Valid() && init && lin[1..len + 1] == msg && |m| == len
        invariant cword == Fold(start, m[..j - 1])
      {
        var ch := lin[j];
        if jrev < 0 {
          ch := LookUpReversed(lin[j]);
        }
        assert ch == m[j - 1];
        FoldNext(start, m, j - 1);
        cword := Next(cword, ch);
        j := j + 1;
      }
      assert m[..len] == m;
      if jrev >= 0 {
        r := cword;
      } else {
        r := ReverseWord(cword);
        BackwardsResult(crc, jinit, msg);
      }
    }

    method LookUpReversed(b: bv8) returns (r: bv8)
      requires Valid() && init
      ensures r == Reversed(b)
    {
      hide Reversed, Steps, High;
      assert Tabulated(b);
      r := rchr[b as int];
    }

    // cword = icrctb[tmp1] ^ LOBYTE(cword) << 8
    method Next(cword: bv16, ch: bv8) returns (r: bv16)
      requires Valid() && init
      ensures r == WithByte(cword, ch)
    {
      hide Reversed, Steps, High, Xor, XorByte, HiByte, LoByte;
      var tmp1 := XorByte(HiByte(cword), ch);
      assert Tabulated(tmp1);
      TableStep(cword, ch);
      r := Xor(icrctb[tmp1 as int], High(LoByte(cword)));
    }

    // rchr[HIBYTE(cword)] | rchr[LOBYTE(cword)] << 8
    method ReverseWord(cword: bv16) returns (r: bv16)
      requires Valid() && init
      ensures r == Reversed16(cword)
    {
      hide Reversed, HiByte, LoByte, Xor, High, Low;
      var high := LookUpReversed(HiByte(cword));
      var low := LookUpReversed(LoByte(cword));
      r := Xor(Low(high), High(low));
    }

    // The calls of _main: the CRC of n bytes is put behind them, high byte first; the longer message has CRC 0.
    method AppendAndCheck(n: nat) returns (i1: bv16, i2: bv16)
      requires Valid() && n + 2 < 256
      modifies this`init, icrctb, rchr, lin
      ensures Valid() && i1 == Fold(0, old(lin[1..n + 1])) && i2 == 0
      ensures lin[1..n + 3] == old(lin[1..n + 1]) + [HiByte(i1), LoByte(i1)]
    {
      hide Fold, HiByte, LoByte, Both, InitByte;
      ghost var msg := lin[1..n + 1];
      lin[n + 1] := 0;
      assert lin[1..n + 1] == msg;
      i1 := Icrc(0, n, 0, 1);
      assert lin[1..n + 1] == msg;
      lin[n + 1] := HiByte(i1);
      lin[n + 2] := LoByte(i1);
      assert lin[1..n + 3] == msg + [HiByte(i1), LoByte(i1)];
      StartOfZero();
      ResidueIsZero(0, msg);
      i2 := Icrc(i1, n + 2, 0, 1);
    }
  }

  // it[j & 0xF] << 4 | it[j >> 4]
  method ReverseByTable(b: bv8) returns (r: bv8)
    ensures r == Reversed(b)
  {
    hide Nibble, Reversed;
    LowNibbles(b);
    var low := LookUpNibble(b & 0xF);
    var high := LookUpNibble(b >> 4);
    ByteOfNibbles(b);
    r := (low << 4) | high;
  }

  method LookUpNibble(n: bv8) returns (r: bv8)
    requires n < 16
    ensures r == Nibble(n)
  {
    hide Nibble;
    NibbleIndex(n);
    NibblesReverse(n as int);
    r := NIBBLES[n as int];
  }

  lemma LowNibbles(b: bv8)
    ensures b & 0xF < 16 && b >> 4 < 16
  {}

  lemma EntryOfTable(ch: bv8)
    ensures WithByte(High(ch), 0) == Steps(8, High(ch))
  {
    hide Steps;
    assert High(0) == 0;
    XorZero(High(ch));
  }

  lemma NextIndex(b: bv8)
    ensures b as int < 255 ==> (b + 1) as int == b as int + 1
  {}

  lemma SameIndex(b: bv8, c: bv8)
    ensures b as int == c as int ==> b == c
  {}

  lemma ByteRange(b: bv8)
    ensures 0 <= b as int < 256
  {}
}

/**
 The arithmetic of aes_lite/aes.c on bytes and packed words: doubling in GF(2^8) (FIPS 197 section 4.2), the
 column mixing of AES_encrypt, the one of AES_decrypt, and the packed-word macro that AES_convert_key uses.
 */
module AesField {

  // ---------------------------------------------------------------- bytes of a word, most significant first

  function Byte0(w: bv32): bv8 { ((w >> 24) & 0xFF) as bv8 }
  function Byte1(w: bv32): bv8 { ((w >> 16) & 0xFF) as bv8 }
  function Byte2(w: bv32): bv8 { ((w >> 8) & 0xFF) as bv8 }
  function Byte3(w: bv32): bv8 { (w & 0xFF) as bv8 }

  function Pack(a0: bv8, a1: bv8, a2: bv8, a3: bv8): bv32 {
    ((a0 as bv32) << 24) | ((a1 as bv32) << 16) | ((a2 as bv32) << 8) | (a3 as bv32)
  }

  lemma PackedBytes(a0: bv8, a1: bv8, a2: bv8, a3: bv8)
    ensures Byte0(Pack(a0, a1, a2, a3)) == a0 && Byte1(Pack(a0, a1, a2, a3)) == a1
    ensures Byte2(Pack(a0, a1, a2, a3)) == a2 && Byte3(Pack(a0, a1, a2, a3)) == a3
  {}

  lemma UnpackedWord(w: bv32)
    ensures Pack(Byte0(w), Byte1(w), Byte2(w), Byte3(w)) == w
  {}

  // ---------------------------------------------------------------- addition and doubling

  // Addition in the field.
  function Add(a: bv8, b: bv8): bv8 { a ^ b }

  // AES_xtime
  function XTime(x: bv8): bv8 {
    if x & 0x80 != 0 then (x << 1) ^ 0x1B else x << 1
  }

  lemma XTimeAdds(a: bv8, b: bv8)
    ensures XTime(Add(a, b)) == Add(XTime(a), XTime(b))
  {
    ShiftAdds(a, b);
    ReductionAdds(a, b);
    XTimeParts(a);
    XTimeParts(b);
    XTimeParts(Add(a, b));
    hide *;
    Swap(Shifted(a), Reduction(a), Shifted(b), Reduction(b));
  }

  function Shifted(x: bv8): bv8 { x << 1 }
  function Reduction(x: bv8): bv8 { if x & 0x80 != 0 then 0x1B else 0 }

  lemma XTimeParts(x: bv8)
    ensures XTime(x) == Add(Shifted(x), Reduction(x))
  {}

  lemma ShiftAdds(a: bv8, b: bv8)
    ensures Shifted(Add(a, b)) == Add(Shifted(a), Shifted(b))
  {}

  lemma ReductionAdds(a: bv8, b: bv8)
    ensures Reduction(Add(a, b)) == Add(Reduction(a), Reduction(b))
  {}

  function AddWords(x: bv32, y: bv32): bv32 { x ^ y }

  function Double2(a: bv8): bv8 { XTime(XTime(a)) }
  function Double3(a: bv8): bv8 { XTime(XTime(XTime(a))) }

  lemma DoublingsAdd(a: bv8, b: bv8)
    ensures XTime(Add(a, b)) == Add(XTime(a), XTime(b))
    ensures Double2(Add(a, b)) == Add(Double2(a), Double2(b))
    ensures Double3(Add(a, b)) == Add(Double3(a), Double3(b))
  {
    hide Add, XTime;
    XTimeAdds(a, b);
    XTimeAdds(XTime(a), XTime(b));
    XTimeAdds(XTime(XTime(a)), XTime(XTime(b)));
  }

  lemma Commute(a: bv8, b: bv8)
    ensures Add(a, b) == Add(b, a)
  {}

  lemma Shared(a: bv8, b: bv8, c: bv8)
    ensures Add(Add(a, b), Add(b, c)) == Add(a, c)
  {}

  function Sum4(a: bv8, b: bv8, c: bv8, d: bv8): bv8 { Add(Add(a, b), Add(c, d)) }

  lemma Associate(a: bv8, b: bv8, c: bv8)
    ensures Add(Add(a, b), c) == Add(a, Add(b, c))
  {}

  lemma Swap(a: bv8, b: bv8, c: bv8, d: bv8)
    ensures Add(Add(a, b), Add(c, d)) == Add(Add(a, c), Add(b, d))
  {
    hide Add;
    Associate(a, b, Add(c, d));
    Associate(b, c, d);
    Commute(b, c);
    Associate(c, b, d);
    Associate(a, c, Add(b, d));
  }

  lemma Rotated(a: bv8, b: bv8, c: bv8, d: bv8)
    ensures Sum4(b, c, d, a) == Sum4(a, b, c, d)
    ensures Sum4(a, c, b, d) == Sum4(a, b, c, d)
  {
    hide Add;
    Swap(a, b, c, d);
    Swap(b, c, d, a);
    Swap(b, d, c, a);
    Commute(Add(a, b), Add(c, d));
    Commute(c, a);
    Commute(Add(b, d), Add(a, c));
    Commute(b, c);
    Swap(a, c, b, d);
  }

  // ---------------------------------------------------------------- mixing columns

  // One column of AES_encrypt: each byte is increased by the sum of all and the doubled sum of itself and the next.
  function Mix(w: bv32): bv32 {
    var a0, a1, a2, a3 := Byte0(w), Byte1(w), Byte2(w), Byte3(w);
    var sum := Sum4(a0, a1, a2, a3);
    Pack(Add(a0, Add(sum, XTime(Add(a0, a1)))), Add(a1, Add(sum, XTime(Add(a1, a2)))),
         Add(a2, Add(sum, XTime(Add(a2, a3)))), Add(a3, Add(sum, XTime(Add(a3, a0)))))
  }

  // One column of AES_decrypt.
  function InvMix(w: bv32): bv32 {
    var a0, a1, a2, a3 := Byte0(w), Byte1(w), Byte2(w), Byte3(w);
    var xt0, xt1, xt2, xt3 := XTime(Add(a0, a1)), XTime(Add(a1, a2)), XTime(Add(a2, a3)), XTime(Add(a3, a0));
    var xt4, xt5 := XTime(Add(xt0, xt1)), XTime(Add(xt1, xt2));
    var xt6 := XTime(Add(xt4, xt5));
    Pack(Add(Add(Add(xt6, xt4), xt0), Add(a1, Add(a2, a3))), Add(Add(Add(xt6, xt5), xt1), Add(a2, Add(a3, a0))),
         Add(Add(Add(xt6, xt4), xt2), Add(a3, Add(a0, a1))), Add(Add(Add(xt6, xt5), xt3), Add(a0, Add(a1, a2))))
  }

  // The macros mul2 and inv_mix_col: four bytes at a time.
  function Mul2(x: bv32): bv32 {
    var t := x & 0x80808080;
    ((x + x) & 0xFEFEFEFE) ^ ((t - (t >> 7)) & 0x1B1B1B1B)
  }

  function Rot1(x: bv32): bv32 { (x << 24) | (x >> 8) }
  function Rot2(x: bv32): bv32 { (x << 16) | (x >> 16) }
  function Rot3(x: bv32): bv32 { (x << 8) | (x >> 24) }

  function InvMixPacked(x: bv32): bv32 {
    var f2 := Mul2(x);
    var f4 := Mul2(f2);
    var f8 := Mul2(f4);
    var f9 := AddWords(x, f8);
    var all := AddWords(AddWords(f2, f4), f8);
    AddWords(AddWords(AddWords(all, Rot3(AddWords(f2, f9))), Rot2(AddWords(f4, f9))), Rot1(f9))
  }

  // First row of each mixing; the other rows are the same with the arguments rotated.
  function MixByte(a: bv8, b: bv8, c: bv8, d: bv8): bv8 {
    Add(Add(b, Add(c, d)), XTime(Add(a, b)))
  }

  function InvMixByte(a: bv8, b: bv8, c: bv8, d: bv8): bv8 {
    Add(Add(Add(Double3(Sum4(a, b, c, d)), Double2(Add(a, c))), XTime(Add(a, b))), Add(b, Add(c, d)))
  }

  function MixBytes(a0: bv8, a1: bv8, a2: bv8, a3: bv8): bv32 {
    Pack(MixByte(a0, a1, a2, a3), MixByte(a1, a2, a3, a0), MixByte(a2, a3, a0, a1), MixByte(a3, a0, a1, a2))
  }

  function InvMixBytes(a0: bv8, a1: bv8, a2: bv8, a3: bv8): bv32 {
    Pack(InvMixByte(a0, a1, a2, a3), InvMixByte(a1, a2, a3, a0), InvMixByte(a2, a3, a0, a1), InvMixByte(a3, a0, a1, a2))
  }

  lemma OthersPlus(a: bv8, b: bv8, c: bv8, d: bv8, x: bv8)
    ensures Add(a, Add(Sum4(a, b, c, d), x)) == Add(Add(b, Add(c, d)), x)
  {}

  lemma MixByRows(a0: bv8, a1: bv8, a2: bv8, a3: bv8)
    ensures Mix(Pack(a0, a1, a2, a3)) == MixBytes(a0, a1, a2, a3)
  {
    hide XTime, Add, Sum4, Pack, Byte0, Byte1, Byte2, Byte3;
    PackedBytes(a0, a1, a2, a3);
    Rotated(a0, a1, a2, a3);
    Rotated(a1, a2, a3, a0);
    Rotated(a2, a3, a0, a1);
    OthersPlus(a0, a1, a2, a3, XTime(Add(a0, a1)));
    OthersPlus(a1, a2, a3, a0, XTime(Add(a1, a2)));
    OthersPlus(a2, a3, a0, a1, XTime(Add(a2, a3)));
    OthersPlus(a3, a0, a1, a2, XTime(Add(a3, a0)));
  }

  lemma InvMixByRows(a0: bv8, a1: bv8, a2: bv8, a3: bv8)
    ensures InvMix(Pack(a0, a1, a2, a3)) == InvMixBytes(a0, a1, a2, a3)
  {
    hide XTime, Add, Pack, Byte0, Byte1, Byte2, Byte3, Double2, Double3;
    PackedBytes(a0, a1, a2, a3);
    TwiceDoubled(a0, a1, a2);
    TwiceDoubled(a1, a2, a3);
    ThriceDoubled(a0, a1, a2, a3);
    Rotated(a0, a1, a2, a3);
    Rotated(a1, a2, a3, a0);
    Rotated(a2, a3, a0, a1);
    Commute(a0, a2);
    Commute(a1, a3);
  }

  lemma TwiceDoubled(a: bv8, b: bv8, c: bv8)
    ensures XTime(Add(XTime(Add(a, b)), XTime(Add(b, c)))) == Double2(Add(a, c))
  {
    hide XTime, Add;
    XTimeAdds(Add(a, b), Add(b, c));
    Shared(a, b, c);
  }

  lemma ThriceDoubled(a: bv8, b: bv8, c: bv8, d: bv8)
    ensures XTime(Add(Double2(Add(a, c)), Double2(Add(b, d)))) == Double3(Sum4(a, b, c, d))
  {
    hide XTime, Add;
    DoublingsAdd(Add(a, c), Add(b, d));
    Swap(a, b, c, d);
  }

  // ---------------------------------------------------------------- the inverse

  lemma InvMixUndoesMix(w: bv32)
    ensures InvMix(Mix(w)) == w
  {
    hide Mix, InvMix, Pack, Byte0, Byte1, Byte2, Byte3, MixByte, InvMixByte;
    UnpackedWord(w);
    var a0, a1, a2, a3 := Byte0(w), Byte1(w), Byte2(w), Byte3(w);
    MixByRows(a0, a1, a2, a3);
    InvMixByRows(MixByte(a0, a1, a2, a3), MixByte(a1, a2, a3, a0), MixByte(a2, a3, a0, a1), MixByte(a3, a0, a1, a2));
    InverseRow(a0, a1, a2, a3);
    InverseRow(a1, a2, a3, a0);
    InverseRow(a2, a3, a0, a1);
    InverseRow(a3, a0, a1, a2);
  }

  lemma InverseRow(a: bv8, b: bv8, c: bv8, d: bv8)
    ensures InvMixByte(MixByte(a, b, c, d), MixByte(b, c, d, a), MixByte(c, d, a, b), MixByte(d, a, b, c)) == a
  {
    hide XTime, Double2, Double3, Add, Sum4, MixByte;
    var s := Sum4(a, b, c, d);
    var p, q, r, t := MixByte(a, b, c, d), MixByte(b, c, d, a), MixByte(c, d, a, b), MixByte(d, a, b, c);
    MixedPairs(a, b, c, d);
    MixedOthers(a, b, c, d);
    DoublingsAdd(Add(a, c), XTime(s));
    DoublingsAdd(Add(a, b), XTime(Add(a, c)));
    DoubledTwice(s);
    DoubledTwice(Add(a, c));
    AllCancel(Double3(s), Double2(Add(a, c)), XTime(Add(a, b)), a);
  }

  lemma DoubledTwice(a: bv8)
    ensures XTime(XTime(a)) == Double2(a) && Double2(XTime(a)) == Double3(a)
  {}

  lemma AllCancel(z: bv8, y: bv8, x: bv8, a: bv8)
    ensures Add(Add(Add(z, Add(y, z)), Add(x, y)), Add(a, x)) == a
  {}

  // Sums of two mixed bytes, and of all four.
  lemma MixedPairs(a: bv8, b: bv8, c: bv8, d: bv8)
    ensures Add(MixByte(a, b, c, d), MixByte(b, c, d, a)) == Add(Add(a, b), XTime(Add(a, c)))
    ensures Add(MixByte(a, b, c, d), MixByte(c, d, a, b)) == Add(Add(a, c), XTime(Sum4(a, b, c, d)))
    ensures Sum4(MixByte(a, b, c, d), MixByte(b, c, d, a), MixByte(c, d, a, b), MixByte(d, a, b, c)) == Sum4(a, b, c, d)
  {
    hide MixByte, Add, XTime;
    NeighboursMixed(a, b, c, d);
    NeighboursMixed(c, d, a, b);
    OppositesMixed(a, b, c, d);
    Commute(a, c);
    SharedTwice(Add(a, b), XTime(Add(a, c)), Add(c, d));
  }

  lemma SharedTwice(a: bv8, b: bv8, c: bv8)
    ensures Add(Add(a, b), Add(c, b)) == Add(a, c)
  {}

  lemma NeighboursMixed(a: bv8, b: bv8, c: bv8, d: bv8)
    ensures Add(MixByte(a, b, c, d), MixByte(b, c, d, a)) == Add(Add(a, b), XTime(Add(a, c)))
  {
    hide Add, XTime;
    Swap(Add(b, Add(c, d)), XTime(Add(a, b)), Add(c, Add(d, a)), XTime(Add(b, c)));
    OthersOfNeighbours(a, b, c, d);
    XTimeAdds(Add(a, b), Add(b, c));
    Shared(a, b, c);
  }

  lemma OthersOfNeighbours(a: bv8, b: bv8, c: bv8, d: bv8)
    ensures Add(Add(b, Add(c, d)), Add(c, Add(d, a))) == Add(a, b)
    ensures Add(Add(b, Add(c, d)), Add(d, Add(a, b))) == Add(a, c)
  {}

  lemma OppositesMixed(a: bv8, b: bv8, c: bv8, d: bv8)
    ensures Add(MixByte(a, b, c, d), MixByte(c, d, a, b)) == Add(Add(a, c), XTime(Sum4(a, b, c, d)))
  {
    hide Add, XTime;
    Swap(Add(b, Add(c, d)), XTime(Add(a, b)), Add(d, Add(a, b)), XTime(Add(c, d)));
    OthersOfNeighbours(a, b, c, d);
    XTimeAdds(Add(a, b), Add(c, d));
  }

  lemma MixedOthers(a: bv8, b: bv8, c: bv8, d: bv8)
    ensures Add(MixByte(b, c, d, a), Add(MixByte(c, d, a, b), MixByte(d, a, b, c))) == Add(a, XTime(Add(a, b)))
  {
    hide MixByte, Add, XTime, Sum4;
    var p, q, r, t := MixByte(a, b, c, d), MixByte(b, c, d, a), MixByte(c, d, a, b), MixByte(d, a, b, c);
    MixedPairs(a, b, c, d);
    OthersAreAllPlusOne(p, q, r, t);
    MixByteIs(a, b, c, d);
    FirstIsAllPlusOthers(a, b, c, d, XTime(Add(a, b)));
  }

  lemma MixByteIs(a: bv8, b: bv8, c: bv8, d: bv8)
    ensures MixByte(a, b, c, d) == Add(Add(b, Add(c, d)), XTime(Add(a, b)))
  {
    hide Add, XTime;
  }

  lemma OthersAreAllPlusOne(p: bv8, q: bv8, r: bv8, t: bv8)
    ensures Add(q, Add(r, t)) == Add(Sum4(p, q, r, t), p)
  {}

  lemma FirstIsAllPlusOthers(a: bv8, b: bv8, c: bv8, d: bv8, x: bv8)
    ensures Add(Sum4(a, b, c, d), Add(Add(b, Add(c, d)), x)) == Add(a, x)
  {}

  // ---------------------------------------------------------------- linearity

  lemma InvMixDistributes(x: bv32, y: bv32)
    ensures InvMix(AddWords(x, y)) == AddWords(InvMix(x), InvMix(y))
  {
    hide InvMix, Add, AddWords, Pack, Byte0, Byte1, Byte2, Byte3, InvMixByte;
    UnpackedWord(x);
    UnpackedWord(y);
    var a0, a1, a2, a3 := Byte0(x), Byte1(x), Byte2(x), Byte3(x);
    var b0, b1, b2, b3 := Byte0(y), Byte1(y), Byte2(y), Byte3(y);
    PackAdds(a0, a1, a2, a3, b0, b1, b2, b3);
    InvMixByRows(a0, a1, a2, a3);
    InvMixByRows(b0, b1, b2, b3);
    InvMixByRows(Add(a0, b0), Add(a1, b1), Add(a2, b2), Add(a3, b3));
    RowDistributes(a0, a1, a2, a3, b0, b1, b2, b3);
    RowDistributes(a1, a2, a3, a0, b1, b2, b3, b0);
    RowDistributes(a2, a3, a0, a1, b2, b3, b0, b1);
    RowDistributes(a3, a0, a1, a2, b3, b0, b1, b2);
    PackAdds(InvMixByte(a0, a1, a2, a3), InvMixByte(a1, a2, a3, a0), InvMixByte(a2, a3, a0, a1),
             InvMixByte(a3, a0, a1, a2), InvMixByte(b0, b1, b2, b3), InvMixByte(b1, b2, b3, b0),
             InvMixByte(b2, b3, b0, b1), InvMixByte(b3, b0, b1, b2));
  }

  lemma RowDistributes(a: bv8, b: bv8, c: bv8, d: bv8, e: bv8, f: bv8, g: bv8, h: bv8)
    ensures InvMixByte(Add(a, e), Add(b, f), Add(c, g), Add(d, h))
      == Add(InvMixByte(a, b, c, d), InvMixByte(e, f, g, h))
  {
    hide XTime, Add, Double2, Double3;
    Swap(a, e, b, f);
    Swap(c, g, d, h);
    Swap(Add(a, b), Add(e, f), Add(c, d), Add(g, h));
    var s, t := Sum4(a, b, c, d), Sum4(e, f, g, h);
    DoublingsAdd(s, t);
    Swap(a, e, c, g);
    DoublingsAdd(Add(a, c), Add(e, g));
    DoublingsAdd(Add(a, b), Add(e, f));
    Swap(b, f, Add(c, d), Add(g, h));
    Swap(Double3(s), Double3(t), Double2(Add(a, c)), Double2(Add(e, g)));
    Swap(Add(Double3(s), Double2(Add(a, c))), Add(Double3(t), Double2(Add(e, g))), XTime(Add(a, b)), XTime(Add(e, f)));
    Swap(Add(Add(Double3(s), Double2(Add(a, c))), XTime(Add(a, b))),
         Add(Add(Double3(t), Double2(Add(e, g))), XTime(Add(e, f))),
         Add(b, Add(c, d)), Add(f, Add(g, h)));
  }

  lemma PackAdds(a0: bv8, a1: bv8, a2: bv8, a3: bv8, b0: bv8, b1: bv8, b2: bv8, b3: bv8)
    ensures AddWords(Pack(a0, a1, a2, a3), Pack(b0, b1, b2, b3))
      == Pack(Add(a0, b0), Add(a1, b1), Add(a2, b2), Add(a3, b3))
  {}

  // ---------------------------------------------------------------- the packed form

  lemma Mul2ByByte(w: bv32)
    ensures Byte0(Mul2(w)) == XTime(Byte0(w)) && Byte1(Mul2(w)) == XTime(Byte1(w))
    ensures Byte2(Mul2(w)) == XTime(Byte2(w)) && Byte3(Mul2(w)) == XTime(Byte3(w))
  {
    hide *;
    Mul2Byte0(w);
    Mul2Byte1(w);
    Mul2Byte2(w);
    Mul2Byte3(w);
  }

  lemma Mul2Byte0(w: bv32) ensures Byte0(Mul2(w)) == XTime(Byte0(w)) {}
  lemma Mul2Byte1(w: bv32) ensures Byte1(Mul2(w)) == XTime(Byte1(w)) {}
  lemma Mul2Byte2(w: bv32) ensures Byte2(Mul2(w)) == XTime(Byte2(w)) {}
  lemma Mul2Byte3(w: bv32) ensures Byte3(Mul2(w)) == XTime(Byte3(w)) {}

  lemma Mul2IsXTime(a0: bv8, a1: bv8, a2: bv8, a3: bv8)
    ensures Mul2(Pack(a0, a1, a2, a3)) == Pack(XTime(a0), XTime(a1), XTime(a2), XTime(a3))
  {
    hide *;
    var w := Pack(a0, a1, a2, a3);
    PackedBytes(a0, a1, a2, a3);
    Mul2ByByte(w);
    UnpackedWord(Mul2(w));
  }

  lemma RotatedBytes(w: bv32)
    ensures Byte0(Rot1(w)) == Byte3(w) && Byte1(Rot1(w)) == Byte0(w)
    ensures Byte2(Rot1(w)) == Byte1(w) && Byte3(Rot1(w)) == Byte2(w)
    ensures Byte0(Rot2(w)) == Byte2(w) && Byte1(Rot2(w)) == Byte3(w)
    ensures Byte2(Rot2(w)) == Byte0(w) && Byte3(Rot2(w)) == Byte1(w)
    ensures Byte0(Rot3(w)) == Byte1(w) && Byte1(Rot3(w)) == Byte2(w)
    ensures Byte2(Rot3(w)) == Byte3(w) && Byte3(Rot3(w)) == Byte0(w)
  {}

  lemma Rotations(a0: bv8, a1: bv8, a2: bv8, a3: bv8)
    ensures Rot1(Pack(a0, a1, a2, a3)) == Pack(a3, a0, a1, a2)
    ensures Rot2(Pack(a0, a1, a2, a3)) == Pack(a2, a3, a0, a1)
    ensures Rot3(Pack(a0, a1, a2, a3)) == Pack(a1, a2, a3, a0)
  {
    hide *;
    var w := Pack(a0, a1, a2, a3);
    PackedBytes(a0, a1, a2, a3);
    RotatedBytes(w);
    UnpackedWord(Rot1(w));
    UnpackedWord(Rot2(w));
    UnpackedWord(Rot3(w));
  }

  // The key conversion's packed form computes what the cipher's byte-wise form does.
  lemma PackedFormAgrees(w: bv32)
    ensures InvMixPacked(w) == InvMix(w)
  {
    hide Add, AddWords, Mul2, Rot1, Rot2, Rot3, XTime, Pack, Byte0, Byte1, Byte2, Byte3, InvMix, InvMixByte;
    UnpackedWord(w);
    var a, b, c, d := Byte0(w), Byte1(w), Byte2(w), Byte3(w);
    InvMixByRows(a, b, c, d);
    Mul2IsXTime(a, b, c, d);
    var xa, xb, xc, xd := XTime(a), XTime(b), XTime(c), XTime(d);
    Mul2IsXTime(xa, xb, xc, xd);
    var ya, yb, yc, yd := XTime(xa), XTime(xb), XTime(xc), XTime(xd);
    Mul2IsXTime(ya, yb, yc, yd);
    var za, zb, zc, zd := XTime(ya), XTime(yb), XTime(yc), XTime(yd);
    PackAdds(xa, xb, xc, xd, ya, yb, yc, yd);
    PackAdds(Add(xa, ya), Add(xb, yb), Add(xc, yc), Add(xd, yd), za, zb, zc, zd);
    PackAdds(a, b, c, d, za, zb, zc, zd);
    var pa, pb, pc, pd := Add(a, za), Add(b, zb), Add(c, zc), Add(d, zd);
    PackAdds(xa, xb, xc, xd, pa, pb, pc, pd);
    PackAdds(ya, yb, yc, yd, pa, pb, pc, pd);
    Rotations(Add(xa, pa), Add(xb, pb), Add(xc, pc), Add(xd, pd));
    Rotations(Add(ya, pa), Add(yb, pb), Add(yc, pc), Add(yd, pd));
    Rotations(pa, pb, pc, pd);
    var sa, sb, sc, sd := Add(Add(xa, ya), za), Add(Add(xb, yb), zb), Add(Add(xc, yc), zc), Add(Add(xd, yd), zd);
    PackAdds(sa, sb, sc, sd, Add(xb, pb), Add(xc, pc), Add(xd, pd), Add(xa, pa));
    PackAdds(Add(sa, Add(xb, pb)), Add(sb, Add(xc, pc)), Add(sc, Add(xd, pd)), Add(sd, Add(xa, pa)),
             Add(yc, pc), Add(yd, pd), Add(ya, pa), Add(yb, pb));
    PackAdds(Add(Add(sa, Add(xb, pb)), Add(yc, pc)), Add(Add(sb, Add(xc, pc)), Add(yd, pd)),
             Add(Add(sc, Add(xd, pd)), Add(ya, pa)), Add(Add(sd, Add(xa, pa)), Add(yb, pb)), pd, pa, pb, pc);
    PackedRow(a, b, c, d);
    PackedRow(b, c, d, a);
    PackedRow(c, d, a, b);
    PackedRow(d, a, b, c);
  }

  lemma PackedRow(a: bv8, b: bv8, c: bv8, d: bv8)
    ensures var pb, pc, pd := Add(b, XTime(XTime(XTime(b)))), Add(c, XTime(XTime(XTime(c)))),
      Add(d, XTime(XTime(XTime(d))));
      var sa := Add(Add(XTime(a), XTime(XTime(a))), XTime(XTime(XTime(a))));
      Add(Add(Add(sa, Add(XTime(b), pb)), Add(XTime(XTime(c)), pc)), pd) == InvMixByte(a, b, c, d)
  {
    hide Add, XTime;
    var xa, ya, za := XTime(a), Double2(a), Double3(a);
    var xb, zb, yc, zc, zd := XTime(b), Double3(b), Double2(c), Double3(c), Double3(d);
    DoublingsAdd(a, b);
    DoublingsAdd(c, d);
    DoublingsAdd(a, c);
    DoublingsAdd(Add(a, b), Add(c, d));
    Associate(Add(Add(Add(xa, ya), za), Add(xb, Add(b, zb))), Add(yc, Add(c, zc)), Add(d, zd));
    FirstHalf(xa, ya, za, xb, b, zb);
    SecondHalf(yc, c, zc, d, zd);
    Halves(Add(xa, xb), Add(za, zb), ya, b, Add(zc, zd), yc, Add(c, d));
  }

  lemma FirstHalf(xa: bv8, ya: bv8, za: bv8, xb: bv8, b: bv8, zb: bv8)
    ensures Add(Add(Add(xa, ya), za), Add(xb, Add(b, zb))) == Add(Add(Add(xa, xb), Add(za, zb)), Add(ya, b))
  {
    hide Add;
    Swap(Add(xa, ya), za, xb, Add(b, zb));
    Commute(xa, ya);
    Associate(ya, xa, xb);
    Commute(b, zb);
    Associate(za, zb, b);
    Commute(ya, Add(xa, xb));
    Swap(Add(xa, xb), ya, Add(za, zb), b);
  }

  lemma SecondHalf(yc: bv8, c: bv8, zc: bv8, d: bv8, zd: bv8)
    ensures Add(Add(yc, Add(c, zc)), Add(d, zd)) == Add(Add(Add(zc, zd), yc), Add(c, d))
  {
    hide Add;
    Commute(c, zc);
    Associate(yc, zc, c);
    Commute(d, zd);
    Swap(Add(yc, zc), c, zd, d);
    Associate(yc, zc, zd);
    Commute(yc, Add(zc, zd));
  }

  lemma Halves(u: bv8, v: bv8, y: bv8, b: bv8, w: bv8, z: bv8, t: bv8)
    ensures Add(Add(Add(u, v), Add(y, b)), Add(Add(w, z), t)) == Add(Add(Add(Add(v, w), Add(y, z)), u), Add(b, t))
  {
    hide Add;
    Swap(Add(u, v), Add(y, b), Add(w, z), t);
    Associate(u, v, Add(w, z));
    Associate(v, w, z);
    Associate(y, b, t);
    Associate(Add(u, Add(Add(v, w), z)), y, Add(b, t));
    Associate(u, Add(Add(v, w), z), y);
    Associate(Add(v, w), z, y);
    Commute(z, y);
    Commute(u, Add(Add(v, w), Add(y, z)));
  }
}

/**
 What FIPS 197 says byte by byte, apart from how aes_lite/aes.c goes about it: the cipher (section 5.1), the equivalent
 inverse cipher (section 5.3.5) and the key expansion (section 5.2). A block is sixteen bytes, byte r of column c at
 4 * c + r; a key schedule is a sequence of words, most significant byte first.
 */
module AesStandard {
  import opened AesField
  import opened AesProduct

  type Words = seq<bv32>

  function Look(table: seq<bv8>, x: bv8): bv8
    requires |table| == 256
  {
    table[x as int]
  }

  function ByteOf(w: bv32, r: int): bv8
    requires 0 <= r < 4
  {
    if r == 0 then Byte0(w) else if r == 1 then Byte1(w) else if r == 2 then Byte2(w) else Byte3(w)
  }

  // rounds + 1 blocks: the state after the first key addition, and after each round.
  ghost predicate States(states: seq<seq<bv8>>, rounds: nat) {
    |states| == rounds + 1 && forall n :: 0 <= n <= rounds ==> |states[n]| == 16
  }

  ghost predicate KeyAdded(ks: Words, k: int, s: seq<bv8>, t: seq<bv8>, c: int, r: int)
    requires 0 <= k <= |ks| - 4 && |s| == 16 && |t| == 16 && 0 <= c < 4 && 0 <= r < 4
  {
    t[4 * c + r] == Add(s[4 * c + r], ByteOf(ks[k + c], r))
  }

  // ---------------------------------------------------------------- the cipher

  // Row r of column c after SubBytes and ShiftRows.
  function Substituted(table: seq<bv8>, s: seq<bv8>, c: int, r: int): bv8
    requires |table| == 256 && |s| == 16 && 0 <= c < 4 && 0 <= r < 4
  {
    Look(table, s[4 * ((c + r) % 4) + r])
  }

  // A round from s to t, with words 4n to 4n + 3 of the schedule: SubBytes, ShiftRows, MixColumns, AddRoundKey.
  ghost predicate RoundByte(table: seq<bv8>, ks: Words, n: int, s: seq<bv8>, t: seq<bv8>, c: int, r: int)
    requires |table| == 256 && 0 <= 4 * n <= |ks| - 4 && |s| == 16 && |t| == 16 && 0 <= c < 4 && 0 <= r < 4
  {
    var b0, b1 := Substituted(table, s, c, r), Substituted(table, s, c, (r + 1) % 4);
    var b2, b3 := Substituted(table, s, c, (r + 2) % 4), Substituted(table, s, c, (r + 3) % 4);
    t[4 * c + r] == Add(Add(Add(Add(Times(2, b0), Times(3, b1)), b2), b3), ByteOf(ks[4 * n + c], r))
  }

  // The last round has no MixColumns.
  ghost predicate LastByte(table: seq<bv8>, ks: Words, n: int, s: seq<bv8>, t: seq<bv8>, c: int, r: int)
    requires |table| == 256 && 0 <= 4 * n <= |ks| - 4 && |s| == 16 && |t| == 16 && 0 <= c < 4 && 0 <= r < 4
  {
    t[4 * c + r] == Add(Substituted(table, s, c, r), ByteOf(ks[4 * n + c], r))
  }

  ghost predicate RoundBytes(table: seq<bv8>, ks: Words, n: int, s: seq<bv8>, t: seq<bv8>)
    requires |table| == 256 && 0 <= 4 * n <= |ks| - 4 && |s| == 16 && |t| == 16
  {
    forall c, r :: 0 <= c < 4 && 0 <= r < 4 ==> RoundByte(table, ks, n, s, t, c, r)
  }

  ghost predicate CipherStates(table: seq<bv8>, ks: Words, rounds: nat, input: seq<bv8>, states: seq<seq<bv8>>)
    requires |table| == 256 && 1 <= rounds && 4 * (rounds + 1) <= |ks| && |input| == 16
  {
    && States(states, rounds)
    && var first, before, last := states[0], states[rounds - 1], states[rounds];
    && (forall c, r :: 0 <= c < 4 && 0 <= r < 4 ==> KeyAdded(ks, 0, input, first, c, r))
    && (forall m, n :: 0 <= m < n < rounds && n == m + 1 ==> RoundBytes(table, ks, n, states[m], states[n]))
    && (forall c, r :: 0 <= c < 4 && 0 <= r < 4 ==> LastByte(table, ks, rounds, before, last, c, r))
  }

  // The cipher turns input into output.
  ghost predicate Enciphers(table: seq<bv8>, ks: Words, rounds: nat, input: seq<bv8>, output: seq<bv8>)
    requires |table| == 256 && 1 <= rounds && 4 * (rounds + 1) <= |ks| && |input| == 16
  {
    exists states: seq<seq<bv8>> :: CipherStates(table, ks, rounds, input, states) && output == states[rounds]
  }

  // ---------------------------------------------------------------- the equivalent inverse cipher

  // Row r of column c after InvSubBytes and InvShiftRows.
  function InvSubstituted(table: seq<bv8>, s: seq<bv8>, c: int, r: int): bv8
    requires |table| == 256 && |s| == 16 && 0 <= c < 4 && 0 <= r < 4
  {
    Look(table, s[4 * ((c + 4 - r) % 4) + r])
  }

  ghost predicate InvRoundByte(table: seq<bv8>, ks: Words, n: int, s: seq<bv8>, t: seq<bv8>, c: int, r: int)
    requires |table| == 256 && 0 <= 4 * n <= |ks| - 4 && |s| == 16 && |t| == 16 && 0 <= c < 4 && 0 <= r < 4
  {
    var b0, b1 := InvSubstituted(table, s, c, r), InvSubstituted(table, s, c, (r + 1) % 4);
    var b2, b3 := InvSubstituted(table, s, c, (r + 2) % 4), InvSubstituted(table, s, c, (r + 3) % 4);
    t[4 * c + r] == Add(Add(Add(Add(Times(0x0E, b0), Times(0x0B, b1)), Times(0x0D, b2)), Times(0x09, b3)),
                        ByteOf(ks[4 * n + c], r))
  }

  ghost predicate InvLastByte(table: seq<bv8>, ks: Words, s: seq<bv8>, t: seq<bv8>, c: int, r: int)
    requires |table| == 256 && |ks| >= 4 && |s| == 16 && |t| == 16 && 0 <= c < 4 && 0 <= r < 4
  {
    t[4 * c + r] == Add(InvSubstituted(table, s, c, r), ByteOf(ks[c], r))
  }

  ghost predicate InvRoundBytes(table: seq<bv8>, ks: Words, n: int, s: seq<bv8>, t: seq<bv8>)
    requires |table| == 256 && 0 <= 4 * n <= |ks| - 4 && |s| == 16 && |t| == 16
  {
    forall c, r :: 0 <= c < 4 && 0 <= r < 4 ==> InvRoundByte(table, ks, n, s, t, c, r)
  }

  ghost predicate InverseStates(table: seq<bv8>, ks: Words, rounds: nat, input: seq<bv8>, states: seq<seq<bv8>>)
    requires |table| == 256 && 1 <= rounds && 4 * (rounds + 1) <= |ks| && |input| == 16
  {
    && States(states, rounds)
    && var first, before, last, k := states[0], states[rounds - 1], states[rounds], 4 * rounds;
    && (forall c, r :: 0 <= c < 4 && 0 <= r < 4 ==> KeyAdded(ks, k, input, first, c, r))
    && (forall m, n :: 0 <= m < n < rounds && n == m + 1 ==>
          InvRoundBytes(table, ks, rounds - n, states[m], states[n]))
    && (forall c, r :: 0 <= c < 4 && 0 <= r < 4 ==> InvLastByte(table, ks, before, last, c, r))
  }

  // The equivalent inverse cipher, with its own key schedule, turns input into output.
  ghost predicate Deciphers(table: seq<bv8>, ks: Words, rounds: nat, input: seq<bv8>, output: seq<bv8>)
    requires |table| == 256 && 1 <= rounds && 4 * (rounds + 1) <= |ks| && |input| == 16
  {
    exists states: seq<seq<bv8>> :: InverseStates(table, ks, rounds, input, states) && output == states[rounds]
  }

  // ---------------------------------------------------------------- the key expansion

  // Byte r of word i, from the word before and the word one key length before.
  ghost predicate ExpandedByte(table: seq<bv8>, ks: Words, words: int, i: int, r: int)
    requires |table| == 256 && (words == 4 || words == 8) && words <= i < |ks| && i / words <= 12 && 0 <= r < 4
  {
    var before, last := ByteOf(ks[i - words], r), ks[i - 1];
    ByteOf(ks[i], r) ==
      if i % words == 0 then
        Add(before, Add(Look(table, ByteOf(last, (r + 1) % 4)), if r == 0 then RCON[i / words - 1] else 0))
      else if words == 8 && i % 8 == 4 then Add(before, Look(table, ByteOf(last, r)))
      else Add(before, ByteOf(last, r))
  }

  const RCON: seq<bv8> := [0x01, 0x02, 0x04, 0x08, 0x10, 0x20, 0x40, 0x80, 0x1b, 0x36, 0x6c, 0xd8]

  // The first count words of ks are the schedule of the key.
  ghost predicate Expands(table: seq<bv8>, key: seq<bv8>, words: int, ks: Words, count: int) {
    && |table| == 256 && (words == 4 || words == 8) && |key| == 4 * words && words <= count <= |ks|
    && (count - 1) / words <= 12
    && (forall i, r :: 0 <= i < words && 0 <= r < 4 ==> ByteOf(ks[i], r) == key[4 * i + r])
    && (forall i, r :: words <= i < count && 0 <= r < 4 ==> i / words <= 12 && ExpandedByte(table, ks, words, i, r))
  }

  // ---------------------------------------------------------------- cipher block chaining

  function XorBytes(a: seq<bv8>, b: seq<bv8>): (r: seq<bv8>)
    requires |a| == |b|
    ensures |r| == |a|
  {
    seq(|a|, k requires 0 <= k < |a| => Add(a[k], b[k]))
  }

  function BlockAt(s: seq<bv8>, b: nat): (r: seq<bv8>)
    requires 16 * b + 16 <= |s|
    ensures |r| == 16
  {
    s[16 * b..16 * b + 16]
  }

  // What block b is chained to: the cipher block before it, or the initialization vector.
  function Before(iv: seq<bv8>, cipher: seq<bv8>, b: nat): (r: seq<bv8>)
    requires |iv| == 16 && 16 * b <= |cipher|
    ensures |r| == 16
  {
    if b == 0 then iv else BlockAt(cipher, b - 1)
  }

  // The first n blocks of cipher are the chained cipher text of those of text.
  ghost predicate Chains(table: seq<bv8>, ks: Words, rounds: nat, iv: seq<bv8>, text: seq<bv8>, cipher: seq<bv8>,
                         n: nat) {
    && |table| == 256 && 1 <= rounds && 4 * (rounds + 1) <= |ks| && |iv| == 16
    && 16 * n <= |text| && 16 * n <= |cipher|
    && forall b: nat :: b < n ==>
         Enciphers(table, ks, rounds, XorBytes(BlockAt(text, b), Before(iv, cipher, b)), BlockAt(cipher, b))
  }

  // The first n blocks of text are what chained decryption makes of those of cipher.
  ghost predicate Unchains(table: seq<bv8>, ks: Words, rounds: nat, iv: seq<bv8>, cipher: seq<bv8>, text: seq<bv8>,
                           n: nat) {
    && |table| == 256 && 1 <= rounds && 4 * (rounds + 1) <= |ks| && |iv| == 16
    && 16 * n <= |text| && 16 * n <= |cipher|
    && forall b: nat :: b < n ==>
         Deciphers(table, ks, rounds, BlockAt(cipher, b), XorBytes(BlockAt(text, b), Before(iv, cipher, b)))
  }

  // ---------------------------------------------------------------- bytes of words and blocks

  function WordBytes(w: bv32): (b: seq<bv8>)
    ensures |b| == 4
  {
    [Byte0(w), Byte1(w), Byte2(w), Byte3(w)]
  }

  function BlockBytes(w: Words): (b: seq<bv8>)
    requires |w| == 4
    ensures |b| == 16
  {
    WordBytes(w[0]) + WordBytes(w[1]) + WordBytes(w[2]) + WordBytes(w[3])
  }

  lemma ByteOfBlock(w: Words, c: int, r: int)
    requires |w| == 4 && 0 <= c < 4 && 0 <= r < 4
    ensures BlockBytes(w)[4 * c + r] == ByteOf(w[c], r)
  {
    hide Byte0, Byte1, Byte2, Byte3;
    assert WordBytes(w[c])[r] == ByteOf(w[c], r);
    hide WordBytes;
  }

  lemma ByteOfSum(x: bv32, y: bv32, r: int)
    requires 0 <= r < 4
    ensures ByteOf(AddWords(x, y), r) == Add(ByteOf(x, r), ByteOf(y, r))
  {
    hide AddWords, Add, Byte0, Byte1, Byte2, Byte3;
    SumByte0(x, y);
    SumByte1(x, y);
    SumByte2(x, y);
    SumByte3(x, y);
  }

  lemma SumByte0(x: bv32, y: bv32) ensures Byte0(AddWords(x, y)) == Add(Byte0(x), Byte0(y)) {}
  lemma SumByte1(x: bv32, y: bv32) ensures Byte1(AddWords(x, y)) == Add(Byte1(x), Byte1(y)) {}
  lemma SumByte2(x: bv32, y: bv32) ensures Byte2(AddWords(x, y)) == Add(Byte2(x), Byte2(y)) {}
  lemma SumByte3(x: bv32, y: bv32) ensures Byte3(AddWords(x, y)) == Add(Byte3(x), Byte3(y)) {}

  lemma ByteOfPack(a0: bv8, a1: bv8, a2: bv8, a3: bv8, r: int)
    requires 0 <= r < 4
    ensures ByteOf(Pack(a0, a1, a2, a3), r) == [a0, a1, a2, a3][r]
  {
    hide Pack, Byte0, Byte1, Byte2, Byte3;
    PackedBytes(a0, a1, a2, a3);
  }

  // Row r of each mixing.
  lemma MixedRow(a: seq<bv8>, r: int)
    requires |a| == 4 && 0 <= r < 4
    ensures ByteOf(Mix(Pack(a[0], a[1], a[2], a[3])), r)
         == Add(Add(Add(Times(2, a[r]), Times(3, a[(r + 1) % 4])), a[(r + 2) % 4]), a[(r + 3) % 4])
  {
    hide Pack, Byte0, Byte1, Byte2, Byte3, Mix, Times, MixByte, ByteOf, Add;
    MixByRows(a[0], a[1], a[2], a[3]);
    ByteOfPack(MixByte(a[0], a[1], a[2], a[3]), MixByte(a[1], a[2], a[3], a[0]), MixByte(a[2], a[3], a[0], a[1]),
               MixByte(a[3], a[0], a[1], a[2]), r);
    MixColumnsRow(a[r], a[(r + 1) % 4], a[(r + 2) % 4], a[(r + 3) % 4]);
    NextRows(r);
  }

  lemma NextRows(r: int)
    requires 0 <= r < 4
    ensures r == 0 ==> (r + 1) % 4 == 1 && (r + 2) % 4 == 2 && (r + 3) % 4 == 3
    ensures r == 1 ==> (r + 1) % 4 == 2 && (r + 2) % 4 == 3 && (r + 3) % 4 == 0
    ensures r == 2 ==> (r + 1) % 4 == 3 && (r + 2) % 4 == 0 && (r + 3) % 4 == 1
    ensures r == 3 ==> (r + 1) % 4 == 0 && (r + 2) % 4 == 1 && (r + 3) % 4 == 2
  {}

  lemma InvMixedRow(a: seq<bv8>, r: int)
    requires |a| == 4 && 0 <= r < 4
    ensures ByteOf(InvMix(Pack(a[0], a[1], a[2], a[3])), r)
         == Add(Add(Add(Times(0x0E, a[r]), Times(0x0B, a[(r + 1) % 4])), Times(0x0D, a[(r + 2) % 4])),
                Times(0x09, a[(r + 3) % 4]))
  {
    hide Pack, Byte0, Byte1, Byte2, Byte3, InvMix, Times, InvMixByte, ByteOf, Add;
    InvMixByRows(a[0], a[1], a[2], a[3]);
    ByteOfPack(InvMixByte(a[0], a[1], a[2], a[3]), InvMixByte(a[1], a[2], a[3], a[0]),
               InvMixByte(a[2], a[3], a[0], a[1]), InvMixByte(a[3], a[0], a[1], a[2]), r);
    InvMixColumnsRow(a[r], a[(r + 1) % 4], a[(r + 2) % 4], a[(r + 3) % 4]);
    NextRows(r);
  }

  // ---------------------------------------------------------------- examples of the standard

  // Section 4.2: products; section 5.1.1: an entry of the S-box and the pair of inverses behind it.
  lemma ProductExamples()
    ensures XTime(0x57) == 0xAE && Times(0x57, 0x13) == 0xFE && Times(0x57, 0x83) == 0xC1 && Times(0x53, 0xCA) == 1
  {
    assert Doubled(1, 0x13) == 0x26 && Doubled(2, 0x13) == 0x4C && Doubled(4, 0x13) == 0x2B && Doubled(6, 0x13) == 0xAC;
  }
}

/**
 AES_encrypt, AES_decrypt and AES_convert_key of aes_lite/aes.c, and the equivalent inverse cipher (FIPS 197
 section 5.3.5): decryption with the converted key schedule undoes encryption, for any schedule and any S-box
 with its inverse table.
 */
module AesCipher {
  import opened AesField
  import opened AesProduct
  import opened AesStandard

  // isbox looks every byte up in sbox backwards.
  ghost predicate Inverts(isbox: seq<bv8>, sbox: seq<bv8>) {
    |sbox| == 256 && |isbox| == 256 && forall x: bv8 :: Look(isbox, Look(sbox, x)) == x
  }

  // ---------------------------------------------------------------- one round, on four words

  // ByteSub and ShiftRow together, one column: byte i comes from word wi.
  function SubShift(sbox: seq<bv8>, w0: bv32, w1: bv32, w2: bv32, w3: bv32): bv32
    requires |sbox| == 256
  {
    Pack(Look(sbox, Byte0(w0)), Look(sbox, Byte1(w1)), Look(sbox, Byte2(w2)), Look(sbox, Byte3(w3)))
  }

  function SubShiftAll(sbox: seq<bv8>, d: Words): (r: Words)
    requires |sbox| == 256 && |d| == 4
    ensures |r| == 4
  {
    [SubShift(sbox, d[0], d[1], d[2], d[3]), SubShift(sbox, d[1], d[2], d[3], d[0]),
     SubShift(sbox, d[2], d[3], d[0], d[1]), SubShift(sbox, d[3], d[0], d[1], d[2])]
  }

  function InvSubShiftAll(isbox: seq<bv8>, d: Words): (r: Words)
    requires |isbox| == 256 && |d| == 4
    ensures |r| == 4
  {
    [SubShift(isbox, d[0], d[3], d[2], d[1]), SubShift(isbox, d[1], d[0], d[3], d[2]),
     SubShift(isbox, d[2], d[1], d[0], d[3]), SubShift(isbox, d[3], d[2], d[1], d[0])]
  }

  function MixAll(d: Words): (r: Words)
    requires |d| == 4
    ensures |r| == 4
  {
    [Mix(d[0]), Mix(d[1]), Mix(d[2]), Mix(d[3])]
  }

  function InvMixAll(d: Words): (r: Words)
    requires |d| == 4
    ensures |r| == 4
  {
    [InvMix(d[0]), InvMix(d[1]), InvMix(d[2]), InvMix(d[3])]
  }

  // Words k to k + 3 of the schedule added to the block.
  function AddKey(d: Words, ks: Words, k: int): (r: Words)
    requires |d| == 4 && 0 <= k <= |ks| - 4
    ensures |r| == 4
  {
    [AddWords(d[0], ks[k]), AddWords(d[1], ks[k + 1]), AddWords(d[2], ks[k + 2]), AddWords(d[3], ks[k + 3])]
  }

  // ---------------------------------------------------------------- the two ciphers

  // After the first key addition and n mixing rounds.
  function EncryptRounds(sbox: seq<bv8>, ks: Words, d: Words, n: nat): (r: Words)
    requires |sbox| == 256 && |d| == 4 && 4 * (n + 1) <= |ks|
    ensures |r| == 4
  {
    if n == 0 then AddKey(d, ks, 0)
    else AddKey(MixAll(SubShiftAll(sbox, EncryptRounds(sbox, ks, d, n - 1))), ks, 4 * n)
  }

  function EncryptedBlock(sbox: seq<bv8>, ks: Words, rounds: nat, d: Words): (r: Words)
    requires |sbox| == 256 && |d| == 4 && 1 <= rounds && 4 * (rounds + 1) <= |ks|
    ensures |r| == 4
  {
    AddKey(SubShiftAll(sbox, EncryptRounds(sbox, ks, d, rounds - 1)), ks, 4 * rounds)
  }

  function DecryptRounds(isbox: seq<bv8>, ks: Words, rounds: nat, d: Words, n: nat): (r: Words)
    requires |isbox| == 256 && |d| == 4 && 4 * (rounds + 1) <= |ks| && n <= rounds
    ensures |r| == 4
  {
    if n == 0 then AddKey(d, ks, 4 * rounds)
    else AddKey(InvMixAll(InvSubShiftAll(isbox, DecryptRounds(isbox, ks, rounds, d, n - 1))), ks, 4 * (rounds - n))
  }

  function DecryptedBlock(isbox: seq<bv8>, ks: Words, rounds: nat, d: Words): (r: Words)
    requires |isbox| == 256 && |d| == 4 && 1 <= rounds && 4 * (rounds + 1) <= |ks|
    ensures |r| == 4
  {
    AddKey(InvSubShiftAll(isbox, DecryptRounds(isbox, ks, rounds, d, rounds - 1)), ks, 0)
  }

  // The schedule AES_convert_key leaves: every round key mixed backwards but the first and the last.
  ghost predicate Converted(ks: Words, converted: Words, rounds: nat) {
    |converted| == |ks| && 4 * (rounds + 1) <= |ks| &&
    forall i :: 0 <= i < |ks| ==> converted[i] == if 4 <= i < 4 * rounds then InvMix(ks[i]) else ks[i]
  }

  // ---------------------------------------------------------------- both ciphers are the standard's

  // A column after the substitutions, by its bytes.
  lemma ColumnBytes(sbox: seq<bv8>, d: Words, c: int)
    requires |sbox| == 256 && |d| == 4 && 0 <= c < 4
    ensures var s := BlockBytes(d);
      SubShiftAll(sbox, d)[c] == Pack(Substituted(sbox, s, c, 0), Substituted(sbox, s, c, 1),
                                      Substituted(sbox, s, c, 2), Substituted(sbox, s, c, 3))
  {
    hide Pack, Byte0, Byte1, Byte2, Byte3, BlockBytes, Look;
    ByteOfBlock(d, c, 0);
    ByteOfBlock(d, (c + 1) % 4, 1);
    ByteOfBlock(d, (c + 2) % 4, 2);
    ByteOfBlock(d, (c + 3) % 4, 3);
    NextRows(c);
  }

  lemma InvColumnBytes(isbox: seq<bv8>, d: Words, c: int)
    requires |isbox| == 256 && |d| == 4 && 0 <= c < 4
    ensures var s := BlockBytes(d);
      InvSubShiftAll(isbox, d)[c] == Pack(InvSubstituted(isbox, s, c, 0), InvSubstituted(isbox, s, c, 1),
                                          InvSubstituted(isbox, s, c, 2), InvSubstituted(isbox, s, c, 3))
  {
    hide Pack, Byte0, Byte1, Byte2, Byte3, BlockBytes, Look;
    ByteOfBlock(d, c, 0);
    ByteOfBlock(d, (c + 3) % 4, 1);
    ByteOfBlock(d, (c + 2) % 4, 2);
    ByteOfBlock(d, (c + 1) % 4, 3);
    NextRows(c);
  }

  lemma KeyAddedBytes(d: Words, ks: Words, k: int, c: int, r: int)
    requires |d| == 4 && 0 <= k <= |ks| - 4 && 0 <= c < 4 && 0 <= r < 4
    ensures BlockBytes(AddKey(d, ks, k))[4 * c + r] == Add(ByteOf(d[c], r), ByteOf(ks[k + c], r))
    ensures KeyAdded(ks, k, BlockBytes(d), BlockBytes(AddKey(d, ks, k)), c, r)
  {
    hide ByteOf, Add, AddWords, BlockBytes;
    ByteOfBlock(d, c, r);
    ByteOfBlock(AddKey(d, ks, k), c, r);
    ByteOfSum(d[c], ks[k + c], r);
  }

  lemma RoundIsStandard(sbox: seq<bv8>, ks: Words, n: int, d: Words)
    requires |sbox| == 256 && |d| == 4 && 0 <= 4 * n <= |ks| - 4
    ensures RoundBytes(sbox, ks, n, BlockBytes(d), BlockBytes(AddKey(MixAll(SubShiftAll(sbox, d)), ks, 4 * n)))
  {
    hide AddKey, BlockBytes, SubShiftAll, MixAll, RoundByte;
    forall c, r | 0 <= c < 4 && 0 <= r < 4
      ensures RoundByte(sbox, ks, n, BlockBytes(d), BlockBytes(AddKey(MixAll(SubShiftAll(sbox, d)), ks, 4 * n)), c, r)
    {
      RoundByteIs(sbox, ks, n, d, c, r);
    }
  }

  lemma RoundByteIs(sbox: seq<bv8>, ks: Words, n: int, d: Words, c: int, r: int)
    requires |sbox| == 256 && |d| == 4 && 0 <= 4 * n <= |ks| - 4 && 0 <= c < 4 && 0 <= r < 4
    ensures RoundByte(sbox, ks, n, BlockBytes(d), BlockBytes(AddKey(MixAll(SubShiftAll(sbox, d)), ks, 4 * n)), c, r)
  {
    hide ByteOf, Add, AddKey, BlockBytes, SubShiftAll, Mix, MixAll, Times, Pack, Substituted;
    var s, mixed := BlockBytes(d), MixAll(SubShiftAll(sbox, d));
    var b := [Substituted(sbox, s, c, 0), Substituted(sbox, s, c, 1), Substituted(sbox, s, c, 2),
              Substituted(sbox, s, c, 3)];
    ColumnBytes(sbox, d, c);
    MixedColumn(SubShiftAll(sbox, d), c);
    MixedRow(b, r);
    NextRows(r);
    KeyAddedBytes(mixed, ks, 4 * n, c, r);
  }

  lemma MixedColumn(d: Words, c: int)
    requires |d| == 4 && 0 <= c < 4
    ensures MixAll(d)[c] == Mix(d[c]) && InvMixAll(d)[c] == InvMix(d[c])
  {
    hide Mix, InvMix;
  }

  lemma InvRoundIsStandard(isbox: seq<bv8>, ks: Words, n: int, d: Words)
    requires |isbox| == 256 && |d| == 4 && 0 <= 4 * n <= |ks| - 4
    ensures InvRoundBytes(isbox, ks, n, BlockBytes(d),
                          BlockBytes(AddKey(InvMixAll(InvSubShiftAll(isbox, d)), ks, 4 * n)))
  {
    hide AddKey, BlockBytes, InvSubShiftAll, InvMixAll, InvRoundByte;
    forall c, r | 0 <= c < 4 && 0 <= r < 4
      ensures InvRoundByte(isbox, ks, n, BlockBytes(d),
                           BlockBytes(AddKey(InvMixAll(InvSubShiftAll(isbox, d)), ks, 4 * n)), c, r)
    {
      InvRoundByteIs(isbox, ks, n, d, c, r);
    }
  }

  lemma InvRoundByteIs(isbox: seq<bv8>, ks: Words, n: int, d: Words, c: int, r: int)
    requires |isbox| == 256 && |d| == 4 && 0 <= 4 * n <= |ks| - 4 && 0 <= c < 4 && 0 <= r < 4
    ensures InvRoundByte(isbox, ks, n, BlockBytes(d),
                         BlockBytes(AddKey(InvMixAll(InvSubShiftAll(isbox, d)), ks, 4 * n)), c, r)
  {
    hide ByteOf, Add, AddKey, BlockBytes, InvSubShiftAll, InvMix, InvMixAll, Times, Pack, InvSubstituted;
    var s, mixed := BlockBytes(d), InvMixAll(InvSubShiftAll(isbox, d));
    var b := [InvSubstituted(isbox, s, c, 0), InvSubstituted(isbox, s, c, 1), InvSubstituted(isbox, s, c, 2),
              InvSubstituted(isbox, s, c, 3)];
    InvColumnBytes(isbox, d, c);
    MixedColumn(InvSubShiftAll(isbox, d), c);
    InvMixedRow(b, r);
    NextRows(r);
    KeyAddedBytes(mixed, ks, 4 * n, c, r);
  }

  lemma LastIsStandard(sbox: seq<bv8>, ks: Words, n: int, d: Words, c: int, r: int)
    requires |sbox| == 256 && |d| == 4 && 0 <= 4 * n <= |ks| - 4 && 0 <= c < 4 && 0 <= r < 4
    ensures LastByte(sbox, ks, n, BlockBytes(d), BlockBytes(AddKey(SubShiftAll(sbox, d), ks, 4 * n)), c, r)
  {
    hide ByteOf, Add, AddKey, BlockBytes, SubShiftAll, Pack, Substituted;
    var s := BlockBytes(d);
    ColumnBytes(sbox, d, c);
    ByteOfPack(Substituted(sbox, s, c, 0), Substituted(sbox, s, c, 1), Substituted(sbox, s, c, 2),
               Substituted(sbox, s, c, 3), r);
    KeyAddedBytes(SubShiftAll(sbox, d), ks, 4 * n, c, r);
  }

  lemma InvLastIsStandard(isbox: seq<bv8>, ks: Words, d: Words, c: int, r: int)
    requires |isbox| == 256 && |d| == 4 && |ks| >= 4 && 0 <= c < 4 && 0 <= r < 4
    ensures InvLastByte(isbox, ks, BlockBytes(d), BlockBytes(AddKey(InvSubShiftAll(isbox, d), ks, 0)), c, r)
  {
    hide ByteOf, Add, AddKey, BlockBytes, InvSubShiftAll, Pack, InvSubstituted;
    var s := BlockBytes(d);
    InvColumnBytes(isbox, d, c);
    ByteOfPack(InvSubstituted(isbox, s, c, 0), InvSubstituted(isbox, s, c, 1), InvSubstituted(isbox, s, c, 2),
               InvSubstituted(isbox, s, c, 3), r);
    KeyAddedBytes(InvSubShiftAll(isbox, d), ks, 0, c, r);
  }

  // EncryptedBlock is the cipher of section 5.1, byte by byte.
  lemma EncryptionIsStandard(sbox: seq<bv8>, ks: Words, rounds: nat, d: Words)
    requires |sbox| == 256 && |d| == 4 && 1 <= rounds && 4 * (rounds + 1) <= |ks|
    ensures Enciphers(sbox, ks, rounds, BlockBytes(d), BlockBytes(EncryptedBlock(sbox, ks, rounds, d)))
  {
    hide AddKey, MixAll, SubShiftAll, BlockBytes, RoundBytes, KeyAdded, LastByte;
    var last := BlockBytes(EncryptedBlock(sbox, ks, rounds, d));
    var states := seq(rounds + 1, n requires 0 <= n <= rounds =>
      if n < rounds then BlockBytes(EncryptRounds(sbox, ks, d, n)) else last);
    forall c, r | 0 <= c < 4 && 0 <= r < 4
      ensures KeyAdded(ks, 0, BlockBytes(d), states[0], c, r)
    {
      KeyAddedBytes(d, ks, 0, c, r);
    }
    var before := states[rounds - 1];
    forall c, r | 0 <= c < 4 && 0 <= r < 4
      ensures LastByte(sbox, ks, rounds, before, last, c, r)
    {
      LastIsStandard(sbox, ks, rounds, EncryptRounds(sbox, ks, d, rounds - 1), c, r);
    }
    forall m, n | 0 <= m < n < rounds && n == m + 1
      ensures RoundBytes(sbox, ks, n, states[m], states[n])
    {
      RoundIsStandard(sbox, ks, n, EncryptRounds(sbox, ks, d, m));
    }
    assert States(states, rounds) && states[rounds] == last;
    assert CipherStates(sbox, ks, rounds, BlockBytes(d), states);
  }

  // DecryptedBlock is the equivalent inverse cipher of section 5.3.5, byte by byte.
  lemma DecryptionIsStandard(isbox: seq<bv8>, ks: Words, rounds: nat, d: Words)
    requires |isbox| == 256 && |d| == 4 && 1 <= rounds && 4 * (rounds + 1) <= |ks|
    ensures Deciphers(isbox, ks, rounds, BlockBytes(d), BlockBytes(DecryptedBlock(isbox, ks, rounds, d)))
  {
    hide AddKey, InvMixAll, InvSubShiftAll, BlockBytes, InvRoundBytes, KeyAdded, InvLastByte;
    var last := BlockBytes(DecryptedBlock(isbox, ks, rounds, d));
    var states := seq(rounds + 1, n requires 0 <= n <= rounds =>
      if n < rounds then BlockBytes(DecryptRounds(isbox, ks, rounds, d, n)) else last);
    forall c, r | 0 <= c < 4 && 0 <= r < 4
      ensures KeyAdded(ks, 4 * rounds, BlockBytes(d), states[0], c, r)
    {
      KeyAddedBytes(d, ks, 4 * rounds, c, r);
    }
    var before := states[rounds - 1];
    forall c, r | 0 <= c < 4 && 0 <= r < 4
      ensures InvLastByte(isbox, ks, before, last, c, r)
    {
      InvLastIsStandard(isbox, ks, DecryptRounds(isbox, ks, rounds, d, rounds - 1), c, r);
    }
    forall m, n | 0 <= m < n < rounds && n == m + 1
      ensures InvRoundBytes(isbox, ks, rounds - n, states[m], states[n])
    {
      InvRoundIsStandard(isbox, ks, rounds - n, DecryptRounds(isbox, ks, rounds, d, m));
    }
    assert States(states, rounds) && states[rounds] == last;
    assert InverseStates(isbox, ks, rounds, BlockBytes(d), states);
  }

  // ---------------------------------------------------------------- the equivalent inverse cipher

  lemma AddedTwice(x: bv32, k: bv32)
    ensures AddWords(AddWords(x, k), k) == x
  {}

  lemma KeyAddedTwice(d: Words, ks: Words, ks': Words, k: int)
    requires |d| == 4 && 0 <= k <= |ks| - 4 && |ks'| == |ks|
    requires forall i :: k <= i < k + 4 ==> ks'[i] == ks[i]
    ensures AddKey(AddKey(d, ks, k), ks', k) == d
  {
    hide AddWords;
    AddedTwice(d[0], ks[k]);
    AddedTwice(d[1], ks[k + 1]);
    AddedTwice(d[2], ks[k + 2]);
    AddedTwice(d[3], ks[k + 3]);
  }

  lemma InvSubShiftUndoes(sbox: seq<bv8>, isbox: seq<bv8>, d: Words)
    requires Inverts(isbox, sbox) && |d| == 4
    ensures |isbox| == 256 && |sbox| == 256 && InvSubShiftAll(isbox, SubShiftAll(sbox, d)) == d
  {
    hide SubShift, Look;
    ColumnUndone(sbox, isbox, d[0], d[1], d[2], d[3]);
    ColumnUndone(sbox, isbox, d[1], d[2], d[3], d[0]);
    ColumnUndone(sbox, isbox, d[2], d[3], d[0], d[1]);
    ColumnUndone(sbox, isbox, d[3], d[0], d[1], d[2]);
  }

  lemma ColumnUndone(sbox: seq<bv8>, isbox: seq<bv8>, w0: bv32, w1: bv32, w2: bv32, w3: bv32)
    requires Inverts(isbox, sbox)
    ensures |isbox| == 256 && |sbox| == 256
    ensures SubShift(isbox, SubShift(sbox, w0, w1, w2, w3), SubShift(sbox, w3, w0, w1, w2),
                     SubShift(sbox, w2, w3, w0, w1), SubShift(sbox, w1, w2, w3, w0)) == w0
  {
    hide SubShift, Look;
    SubShiftBytes(sbox, w0, w1, w2, w3);
    SubShiftBytes(sbox, w3, w0, w1, w2);
    SubShiftBytes(sbox, w2, w3, w0, w1);
    SubShiftBytes(sbox, w1, w2, w3, w0);
    SubShiftBytes(isbox, SubShift(sbox, w0, w1, w2, w3), SubShift(sbox, w3, w0, w1, w2),
                  SubShift(sbox, w2, w3, w0, w1), SubShift(sbox, w1, w2, w3, w0));
    hide Pack, Byte0, Byte1, Byte2, Byte3;
    UnpackedWord(w0);
  }

  lemma SubShiftBytes(sbox: seq<bv8>, w0: bv32, w1: bv32, w2: bv32, w3: bv32)
    requires |sbox| == 256
    ensures var w := SubShift(sbox, w0, w1, w2, w3);
      && w == Pack(Look(sbox, Byte0(w0)), Look(sbox, Byte1(w1)), Look(sbox, Byte2(w2)), Look(sbox, Byte3(w3)))
      && Byte0(w) == Look(sbox, Byte0(w0)) && Byte1(w) == Look(sbox, Byte1(w1))
      && Byte2(w) == Look(sbox, Byte2(w2)) && Byte3(w) == Look(sbox, Byte3(w3))
  {
    hide Pack, Byte0, Byte1, Byte2, Byte3, Look;
    PackedBytes(Look(sbox, Byte0(w0)), Look(sbox, Byte1(w1)), Look(sbox, Byte2(w2)), Look(sbox, Byte3(w3)));
  }

  // Mixing backwards moves past a key addition when the key is mixed backwards too.
  lemma InvMixPastKey(x: bv32, k: bv32)
    ensures AddWords(InvMix(AddWords(Mix(x), k)), InvMix(k)) == x
  {
    hide *;
    InvMixDistributes(Mix(x), k);
    InvMixUndoesMix(x);
    AddedTwice(x, InvMix(k));
  }

  lemma RoundUndone(d: Words, ks: Words, converted: Words, rounds: nat, n: nat)
    requires |d| == 4 && Converted(ks, converted, rounds) && 1 <= n < rounds
    ensures AddKey(InvMixAll(AddKey(MixAll(d), ks, 4 * n)), converted, 4 * n) == d
  {
    hide AddWords, Mix, InvMix;
    InvMixPastKey(d[0], ks[4 * n]);
    InvMixPastKey(d[1], ks[4 * n + 1]);
    InvMixPastKey(d[2], ks[4 * n + 2]);
    InvMixPastKey(d[3], ks[4 * n + 3]);
  }

  // After n decryption rounds: the state that encryption had n rounds before its end.
  lemma {:induction false} RoundsUndone(sbox: seq<bv8>, isbox: seq<bv8>, ks: Words, converted: Words, rounds: nat,
                                        d: Words, n: nat)
    requires Inverts(isbox, sbox) && |d| == 4 && 1 <= rounds && Converted(ks, converted, rounds) && n < rounds
    ensures DecryptRounds(isbox, converted, rounds, EncryptedBlock(sbox, ks, rounds, d), n) ==
      SubShiftAll(sbox, EncryptRounds(sbox, ks, d, rounds - 1 - n))
  {
    hide AddKey, SubShiftAll, InvSubShiftAll, MixAll, InvMixAll, Look;
    var c := EncryptedBlock(sbox, ks, rounds, d);
    if n == 0 {
      KeyAddedTwice(SubShiftAll(sbox, EncryptRounds(sbox, ks, d, rounds - 1)), ks, converted, 4 * rounds);
    } else {
      RoundsUndone(sbox, isbox, ks, converted, rounds, d, n - 1);
      var before := EncryptRounds(sbox, ks, d, rounds - n);
      InvSubShiftUndoes(sbox, isbox, before);
      RoundUndone(SubShiftAll(sbox, EncryptRounds(sbox, ks, d, rounds - n - 1)), ks, converted, rounds, rounds - n);
    }
  }

  lemma DecryptionUndoesEncryption(sbox: seq<bv8>, isbox: seq<bv8>, ks: Words, converted: Words, rounds: nat, d: Words)
    requires Inverts(isbox, sbox) && |d| == 4 && 1 <= rounds && Converted(ks, converted, rounds)
    ensures DecryptedBlock(isbox, converted, rounds, EncryptedBlock(sbox, ks, rounds, d)) == d
  {
    hide AddKey, SubShiftAll, InvSubShiftAll, EncryptedBlock, Look;
    RoundsUndone(sbox, isbox, ks, converted, rounds, d, rounds - 1);
    InvSubShiftUndoes(sbox, isbox, EncryptRounds(sbox, ks, d, 0));
    KeyAddedTwice(d, ks, converted, 0);
  }

  // ---------------------------------------------------------------- the methods

  // data[row] ^= *(k++) or data[row] = tmp[row] ^ *(k++), four words from word k.
  method AddRoundKey(from: array<bv32>, ks: array<bv32>, k: int, data: array<bv32>)
    requires from.Length == 4 && data.Length == 4 && data != ks && 0 <= k <= ks.Length - 4
    modifies data
    ensures data[..] == AddKey(old(from[..]), ks[..], k)
  {
    hide AddWords, AddKey;
    ghost var d, key := from[..], ks[..];
    AddedWords(d, key, k);
    var row := 0;
    while row < 4
      invariant 0 <= row <= 4 && ks[..] == key
      invariant forall i :: 0 <= i < row ==> data[i] == AddKey(d, key, k)[i]
      invariant forall i :: row <= i < 4 ==> from[i] == d[i]
    {
      data[row] := AddWords(from[row], ks[k + row]);
      row := row + 1;
    }
  }

  lemma AddedWords(d: Words, ks: Words, k: int)
    requires |d| == 4 && 0 <= k <= |ks| - 4
    ensures forall i :: 0 <= i < 4 ==> AddKey(d, ks, k)[i] == AddWords(d[i], ks[k + i])
  {
    hide AddWords;
  }

  lemma ColumnOf(sbox: seq<bv8>, d: Words, row: int)
    requires |sbox| == 256 && |d| == 4 && 0 <= row < 4
    ensures SubShiftAll(sbox, d)[row]
      == SubShift(sbox, d[row % 4], d[(row + 1) % 4], d[(row + 2) % 4], d[(row + 3) % 4])
    ensures Mixed(sbox, d, true)[row] == Mix(SubShiftAll(sbox, d)[row])
    ensures Mixed(sbox, d, false)[row] == SubShiftAll(sbox, d)[row]
  {
    hide SubShift, Mix;
    if row == 0 {
    } else if row == 1 {
    } else if row == 2 {
    } else {
      assert row == 3;
    }
  }

  lemma InvColumnOf(isbox: seq<bv8>, d: Words, row: int)
    requires |isbox| == 256 && |d| == 4 && 0 < row <= 4
    ensures InvSubShiftAll(isbox, d)[row - 1] ==
      SubShift(isbox, d[(row + 3) % 4], d[(row + 2) % 4], d[(row + 1) % 4], d[row % 4])
    ensures InvMixed(isbox, d, true)[row - 1] == InvMix(InvSubShiftAll(isbox, d)[row - 1])
    ensures InvMixed(isbox, d, false)[row - 1] == InvSubShiftAll(isbox, d)[row - 1]
  {
    hide SubShift, InvMix;
    if row == 1 {
    } else if row == 2 {
    } else if row == 3 {
    } else {
      assert row == 4;
    }
  }

  function Mixed(sbox: seq<bv8>, d: Words, mix: bool): (r: Words)
    requires |sbox| == 256 && |d| == 4
    ensures |r| == 4
  {
    if mix then MixAll(SubShiftAll(sbox, d)) else SubShiftAll(sbox, d)
  }

  function InvMixed(isbox: seq<bv8>, d: Words, mix: bool): (r: Words)
    requires |isbox| == 256 && |d| == 4
    ensures |r| == 4
  {
    if mix then InvMixAll(InvSubShiftAll(isbox, d)) else InvSubShiftAll(isbox, d)
  }

  // ByteSub, ShiftRow and, but in the last round, MixColumn into tmp.
  method TransformColumns(sbox: array<bv8>, data: array<bv32>, tmp: array<bv32>, mix: bool)
    requires sbox.Length == 256 && data.Length == 4 && tmp.Length == 4 && data != tmp
    modifies tmp
    ensures tmp[..] == Mixed(sbox[..], data[..], mix)
  {
    hide Mixed;
    ghost var s, d := sbox[..], data[..];
    var row := 0;
    while row < 4
      invariant 0 <= row <= 4 && data[..] == d
      invariant forall i :: 0 <= i < row ==> tmp[i] == Mixed(s, d, mix)[i]
    {
      tmp[row] := TransformColumn(sbox, data, row, mix);
      row := row + 1;
    }
  }

  method TransformColumn(sbox: array<bv8>, data: array<bv32>, row: int, mix: bool) returns (w: bv32)
    requires sbox.Length == 256 && data.Length == 4 && 0 <= row < 4
    ensures w == Mixed(sbox[..], data[..], mix)[row]
  {
    hide Pack, Byte0, Byte1, Byte2, Byte3, Mix, Mixed, MixAll, SubShiftAll, Look;
    ColumnOf(sbox[..], data[..], row);
    var a0 := LookIn(sbox, Byte0(data[row % 4]));
    var a1 := LookIn(sbox, Byte1(data[(row + 1) % 4]));
    var a2 := LookIn(sbox, Byte2(data[(row + 2) % 4]));
    var a3 := LookIn(sbox, Byte3(data[(row + 3) % 4]));
    w := Pack(a0, a1, a2, a3);
    if mix { w := Mix(w); }
  }

  method LookIn(table: array<bv8>, x: bv8) returns (y: bv8)
    requires table.Length == 256
    ensures y == Look(table[..], x)
  {
    y := table[x as int];
  }

  method EncryptBlock(sbox: array<bv8>, ks: array<bv32>, rounds: int, data: array<bv32>)
    requires sbox.Length == 256 && data.Length == 4 && data != ks
    requires 1 <= rounds && 4 * (rounds + 1) <= ks.Length
    modifies data
    ensures data[..] == EncryptedBlock(sbox[..], ks[..], rounds, old(data[..]))
    ensures Enciphers(sbox[..], ks[..], rounds, old(BlockBytes(data[..])), BlockBytes(data[..]))
  {
    hide AddKey, SubShiftAll, MixAll, Enciphers, BlockBytes;
    var tmp := new bv32[4];
    ghost var d, s, key := data[..], sbox[..], ks[..];
    EncryptionIsStandard(s, key, rounds, d);
    AddRoundKey(data, ks, 0, data);
    var round := 0;
    while round < rounds
      invariant 0 <= round <= rounds && ks[..] == key && sbox[..] == s
      invariant data[..]
        == if round < rounds then EncryptRounds(s, key, d, round) else EncryptedBlock(s, key, rounds, d)
    {
      TransformColumns(sbox, data, tmp, round < rounds - 1);
      AddRoundKey(tmp, ks, 4 * (round + 1), data);
      round := round + 1;
    }
  }

  method InverseColumns(isbox: array<bv8>, data: array<bv32>, tmp: array<bv32>, mix: bool)
    requires isbox.Length == 256 && data.Length == 4 && tmp.Length == 4 && data != tmp
    modifies tmp
    ensures tmp[..] == InvMixed(isbox[..], data[..], mix)
  {
    hide InvMixed;
    ghost var s, d := isbox[..], data[..];
    var row := 4;
    while row > 0
      invariant 0 <= row <= 4 && data[..] == d
      invariant forall i :: row <= i < 4 ==> tmp[i] == InvMixed(s, d, mix)[i]
    {
      tmp[row - 1] := InverseColumn(isbox, data, row, mix);
      row := row - 1;
    }
  }

  method InverseColumn(isbox: array<bv8>, data: array<bv32>, row: int, mix: bool) returns (w: bv32)
    requires isbox.Length == 256 && data.Length == 4 && 0 < row <= 4
    ensures w == InvMixed(isbox[..], data[..], mix)[row - 1]
  {
    hide Pack, Byte0, Byte1, Byte2, Byte3, InvMix, InvMixed, InvMixAll, InvSubShiftAll, Look;
    InvColumnOf(isbox[..], data[..], row);
    var a0 := LookIn(isbox, Byte0(data[(row + 3) % 4]));
    var a1 := LookIn(isbox, Byte1(data[(row + 2) % 4]));
    var a2 := LookIn(isbox, Byte2(data[(row + 1) % 4]));
    var a3 := LookIn(isbox, Byte3(data[row % 4]));
    w := Pack(a0, a1, a2, a3);
    if mix { w := InvMix(w); }
  }

  // data[row-1] ^= *(--k) or data[row-1] = tmp[row-1] ^ *(--k), four words down from word k - 1.
  method AddRoundKeyDown(from: array<bv32>, ks: array<bv32>, k: int, data: array<bv32>)
    requires from.Length == 4 && data.Length == 4 && data != ks && 4 <= k <= ks.Length
    modifies data
    ensures data[..] == AddKey(old(from[..]), ks[..], k - 4)
  {
    hide AddWords, AddKey;
    ghost var d, key := from[..], ks[..];
    AddedWords(d, key, k - 4);
    var row := 4;
    while row > 0
      invariant 0 <= row <= 4 && ks[..] == key
      invariant forall i :: row <= i < 4 ==> data[i] == AddKey(d, key, k - 4)[i]
      invariant forall i :: 0 <= i < row ==> from[i] == d[i]
    {
      data[row - 1] := AddWords(from[row - 1], ks[k - 4 + row - 1]);
      row := row - 1;
    }
  }

  method DecryptBlock(isbox: array<bv8>, ks: array<bv32>, rounds: int, data: array<bv32>)
    requires isbox.Length == 256 && data.Length == 4 && data != ks
    requires 1 <= rounds && 4 * (rounds + 1) <= ks.Length
    modifies data
    ensures data[..] == DecryptedBlock(isbox[..], ks[..], rounds, old(data[..]))
    ensures Deciphers(isbox[..], ks[..], rounds, old(BlockBytes(data[..])), BlockBytes(data[..]))
  {
    hide AddKey, InvSubShiftAll, InvMixAll, Deciphers, BlockBytes;
    var tmp := new bv32[4];
    ghost var d, s, key := data[..], isbox[..], ks[..];
    DecryptionIsStandard(s, key, rounds, d);
    AddRoundKeyDown(data, ks, 4 * (rounds + 1), data);
    var round := 0;
    while round < rounds
      invariant 0 <= round <= rounds && ks[..] == key && isbox[..] == s
      invariant data[..] ==
        if round < rounds then DecryptRounds(s, key, rounds, d, round) else DecryptedBlock(s, key, rounds, d)
    {
      InverseColumns(isbox, data, tmp, round < rounds - 1);
      AddRoundKeyDown(tmp, ks, 4 * (rounds - round), data);
      round := round + 1;
    }
  }

  // AES_convert_key
  method ConvertKey(ks: array<bv32>, rounds: int)
    requires 1 <= rounds && 4 * (rounds + 1) <= ks.Length
    modifies ks
    ensures Converted(old(ks[..]), ks[..], rounds)
  {
    hide InvMix, InvMixPacked;
    var k := 4;
    var i := rounds * 4;
    while i > 4
      invariant 4 <= i <= rounds * 4 && k == 4 + (rounds * 4 - i)
      invariant forall j :: 0 <= j < ks.Length ==>
        ks[j] == if 4 <= j < k then InvMix(old(ks[j])) else old(ks[j])
    {
      PackedFormAgrees(ks[k]);
      ks[k] := InvMixPacked(ks[k]);
      k := k + 1;
      i := i - 1;
    }
  }
}

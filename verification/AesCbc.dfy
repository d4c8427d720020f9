/**
 The key context and cipher block chaining of aes_lite/aes.c: AES_set_key, AES_cbc_encrypt, AES_cbc_decrypt, and
 the sequence of calls its main makes, after which the text is back. Buffers are byte arrays; a 32-bit word is
 read from and written to them most significant byte first, which is what htonl and ntohl are there for.
 */
module AesCbc {
  import opened AesField
  import opened AesProduct
  import opened AesStandard
  import opened AesCipher
  import opened AesSBox

  // ---------------------------------------------------------------- words and bytes

  function LoadWord(b: seq<bv8>, at: int): bv32
    requires 0 <= at <= |b| - 4
  {
    Pack(b[at], b[at + 1], b[at + 2], b[at + 3])
  }

  function LoadBlock(b: seq<bv8>, at: int): (w: Words)
    requires 0 <= at <= |b| - 16
    ensures |w| == 4
  {
    [LoadWord(b, at), LoadWord(b, at + 4), LoadWord(b, at + 8), LoadWord(b, at + 12)]
  }

  lemma BytesOfLoadedWord(b: seq<bv8>, at: int)
    requires 0 <= at <= |b| - 4
    ensures WordBytes(LoadWord(b, at)) == b[at..at + 4]
  {
    hide Pack, Byte0, Byte1, Byte2, Byte3;
    PackedBytes(b[at], b[at + 1], b[at + 2], b[at + 3]);
  }

  lemma BytesOfLoadedBlock(b: seq<bv8>, at: int)
    requires 0 <= at <= |b| - 16
    ensures BlockBytes(LoadBlock(b, at)) == b[at..at + 16]
  {
    hide WordBytes, LoadWord;
    BytesOfLoadedWord(b, at);
    BytesOfLoadedWord(b, at + 4);
    BytesOfLoadedWord(b, at + 8);
    BytesOfLoadedWord(b, at + 12);
    assert b[at..at + 8] == b[at..at + 4] + b[at + 4..at + 8];
    assert b[at..at + 12] == b[at..at + 8] + b[at + 8..at + 12];
    assert b[at..at + 16] == b[at..at + 12] + b[at + 12..at + 16];
  }

  lemma LoadedWordBytes(b: seq<bv8>, at: int, w: bv32)
    requires 0 <= at <= |b| - 4 && b[at..at + 4] == WordBytes(w)
    ensures LoadWord(b, at) == w
  {
    assert b[at] == b[at..at + 4][0] && b[at + 1] == b[at..at + 4][1];
    assert b[at + 2] == b[at..at + 4][2] && b[at + 3] == b[at..at + 4][3];
    hide Pack, Byte0, Byte1, Byte2, Byte3;
    UnpackedWord(w);
  }

  lemma FourParts(b: seq<bv8>, at: int, p: seq<bv8>, q: seq<bv8>, r: seq<bv8>, s: seq<bv8>)
    requires |p| == 4 && |q| == 4 && |r| == 4 && |s| == 4
    requires 0 <= at <= |b| - 16 && b[at..at + 16] == p + q + r + s
    ensures b[at..at + 4] == p && b[at + 4..at + 8] == q && b[at + 8..at + 12] == r && b[at + 12..at + 16] == s
  {
    var t := p + q + r + s;
    Part(b, at, t, 0);
    Part(b, at, t, 4);
    Part(b, at, t, 8);
    Part(b, at, t, 12);
    assert t[..4] == p && t[4..8] == q && t[8..12] == r && t[12..16] == s;
  }

  lemma Part(b: seq<bv8>, at: int, t: seq<bv8>, i: int)
    requires 0 <= at <= |b| - 16 && b[at..at + 16] == t && 0 <= i <= 12
    ensures |t| == 16 && b[at + i..at + i + 4] == t[i..i + 4]
  {
    var t4, b4 := t[i..i + 4], b[at + i..at + i + 4];
    forall k | 0 <= k < 4
      ensures t4[k] == b4[k]
    {
      assert t[i + k] == b[at + (i + k)];
    }
  }

  lemma LoadedBlockBytes(b: seq<bv8>, at: int, w: Words)
    requires |w| == 4 && 0 <= at <= |b| - 16 && b[at..at + 16] == BlockBytes(w)
    ensures LoadBlock(b, at) == w
  {
    hide LoadWord, WordBytes;
    FourParts(b, at, WordBytes(w[0]), WordBytes(w[1]), WordBytes(w[2]), WordBytes(w[3]));
    LoadedWordBytes(b, at, w[0]);
    LoadedWordBytes(b, at + 4, w[1]);
    LoadedWordBytes(b, at + 8, w[2]);
    LoadedWordBytes(b, at + 12, w[3]);
  }

  lemma SameBlock(b: seq<bv8>, c: seq<bv8>, at: int)
    requires 0 <= at <= |b| - 16 && at <= |c| - 16 && b[at..at + 16] == c[at..at + 16]
    ensures LoadBlock(b, at) == LoadBlock(c, at)
  {
    hide LoadBlock, BlockBytes;
    BytesOfLoadedBlock(b, at);
    LoadedBlockBytes(c, at, LoadBlock(b, at));
  }

  // ---------------------------------------------------------------- chaining, on values

  // A table (the S-box or its inverse) and a key schedule.
  datatype Key = Key(table: seq<bv8>, ks: Words, rounds: nat) {
    predicate Valid() {
      |table| == 256 && 1 <= rounds && 4 * (rounds + 1) <= |ks|
    }

    function Encrypt(d: Words): (r: Words)
      requires Valid() && |d| == 4
      ensures |r| == 4
    {
      EncryptedBlock(table, ks, rounds, d)
    }

    function Decrypt(d: Words): (r: Words)
      requires Valid() && |d| == 4
      ensures |r| == 4
    {
      DecryptedBlock(table, ks, rounds, d)
    }
  }

  function XorBlocks(a: Words, b: Words): (r: Words)
    requires |a| == 4 && |b| == 4
    ensures |r| == 4
  {
    AddKey(a, b, 0)
  }

  // The n-th block of the cipher text; the 0-th is the initialization vector.
  function CipherBlock(key: Key, iv: Words, text: seq<bv8>, n: nat): (r: Words)
    requires key.Valid() && |iv| == 4 && 16 * n <= |text|
    ensures |r| == 4
  {
    if n == 0 then iv
    else key.Encrypt(XorBlocks(LoadBlock(text, 16 * (n - 1)), CipherBlock(key, iv, text, n - 1)))
  }

  function CipherText(key: Key, iv: Words, text: seq<bv8>, n: nat): (r: seq<bv8>)
    requires key.Valid() && |iv| == 4 && 16 * n <= |text|
    ensures |r| == 16 * n
  {
    if n == 0 then [] else CipherText(key, iv, text, n - 1) + BlockBytes(CipherBlock(key, iv, text, n))
  }

  // What the n-th block is chained to in decryption.
  function Previous(iv: Words, cipher: seq<bv8>, n: nat): (r: Words)
    requires |iv| == 4 && 16 * n <= |cipher|
    ensures |r| == 4
  {
    if n == 0 then iv else LoadBlock(cipher, 16 * (n - 1))
  }

  function PlainText(key: Key, iv: Words, cipher: seq<bv8>, n: nat): (r: seq<bv8>)
    requires key.Valid() && |iv| == 4 && 16 * n <= |cipher|
    ensures |r| == 16 * n
  {
    if n == 0 then []
    else PlainText(key, iv, cipher, n - 1) +
         BlockBytes(XorBlocks(key.Decrypt(LoadBlock(cipher, 16 * (n - 1))), Previous(iv, cipher, n - 1)))
  }

  lemma {:induction false} CipherTextPrefix(key: Key, iv: Words, text: seq<bv8>, m: nat, n: nat)
    requires key.Valid() && |iv| == 4 && m <= n && 16 * n <= |text|
    ensures CipherText(key, iv, text, n)[..16 * m] == CipherText(key, iv, text, m)
  {
    hide BlockBytes, CipherBlock;
    if m < n { CipherTextPrefix(key, iv, text, m, n - 1); }
  }

  lemma CipherTextBlock(key: Key, iv: Words, text: seq<bv8>, m: nat, n: nat)
    requires key.Valid() && |iv| == 4 && 1 <= m <= n && 16 * n <= |text|
    ensures LoadBlock(CipherText(key, iv, text, n), 16 * (m - 1)) == CipherBlock(key, iv, text, m)
  {
    hide BlockBytes, LoadBlock, CipherBlock;
    CipherTextPrefix(key, iv, text, m, n);
    var c := CipherText(key, iv, text, n);
    assert c[16 * (m - 1)..16 * m] == c[..16 * m][16 * (m - 1)..16 * m];
    LoadedBlockBytes(c, 16 * (m - 1), CipherBlock(key, iv, text, m));
  }

  lemma XorTwice(a: Words, b: Words)
    requires |a| == 4 && |b| == 4
    ensures XorBlocks(XorBlocks(a, b), b) == a
  {
    KeyAddedTwice(a, b, b, 0);
  }

  // Chained decryption undoes chained encryption, block by block.
  lemma {:induction false} CbcRoundTrip(key: Key, back: Key, iv: Words, text: seq<bv8>, n: nat, all: nat)
    requires key.Valid() && back.Valid() && |iv| == 4 && n <= all && 16 * all <= |text|
    requires back.rounds == key.rounds && Inverts(back.table, key.table) && Converted(key.ks, back.ks, key.rounds)
    ensures PlainText(back, iv, CipherText(key, iv, text, all), n) == text[..16 * n]
  {
    hide BlockBytes, LoadBlock, XorBlocks, EncryptedBlock, DecryptedBlock, Inverts, Converted;
    if n > 0 {
      CbcRoundTrip(key, back, iv, text, n - 1, all);
      var c := CipherText(key, iv, text, all);
      CipherTextBlock(key, iv, text, n, all);
      if n > 1 { CipherTextBlock(key, iv, text, n - 1, all); }
      var before := CipherBlock(key, iv, text, n - 1);
      var block := LoadBlock(text, 16 * (n - 1));
      DecryptionUndoesEncryption(key.table, back.table, key.ks, back.ks, key.rounds, XorBlocks(block, before));
      XorTwice(block, before);
      BytesOfLoadedBlock(text, 16 * (n - 1));
      assert text[..16 * n] == text[..16 * (n - 1)] + text[16 * (n - 1)..16 * n];
    }
  }

  // ---------------------------------------------------------------- key expansion

  // Section 5.2 of FIPS 197: word i of the schedule of a key of so many words.
  function ScheduleWord(sbox: seq<bv8>, key: seq<bv8>, words: nat, i: nat): bv32
    requires |sbox| == 256 && 1 <= words && |key| == 4 * words
  {
    if i < words then LoadWord(key, 4 * i)
    else AddWords(ScheduleWord(sbox, key, words, i - words),
                  Transformed(sbox, words, i, ScheduleWord(sbox, key, words, i - 1)))
  }

  function Transformed(sbox: seq<bv8>, words: nat, i: nat, w: bv32): bv32
    requires |sbox| == 256 && 1 <= words <= i
  {
    if i % words == 0 then AddWords(SubWord(sbox, RotWord(w)), RoundConstant(i / words))
    else if words == 8 && i % words == 4 then SubWord(sbox, w)
    else w
  }

  function SubWord(sbox: seq<bv8>, w: bv32): bv32
    requires |sbox| == 256
  {
    Pack(Look(sbox, Byte0(w)), Look(sbox, Byte1(w)), Look(sbox, Byte2(w)), Look(sbox, Byte3(w)))
  }

  function RotWord(w: bv32): bv32 { Pack(Byte1(w), Byte2(w), Byte3(w), Byte0(w)) }

  // 1 doubled n - 1 times, in the first byte.
  function RoundConstant(n: nat): bv32
    requires 1 <= n
  {
    Pack(Doubled(n - 1, 1), 0, 0, 0)
  }

  lemma RconDoubles(n: nat)
    requires n < 11
    ensures RCON[n + 1] == XTime(RCON[n])
  {}

  lemma {:induction false} RconIsDoubled(n: nat)
    requires n < 12
    ensures RCON[n] == Doubled(n, 1)
  {
    hide XTime;
    if n > 0 {
      RconIsDoubled(n - 1);
      RconDoubles(n - 1);
    }
  }

  // ---------------------------------------------------------------- the standard, byte by byte

  lemma SubWordBytes(sbox: seq<bv8>, w: bv32, r: int)
    requires |sbox| == 256 && 0 <= r < 4
    ensures ByteOf(SubWord(sbox, w), r) == Look(sbox, ByteOf(w, r))
    ensures ByteOf(RotWord(w), r) == ByteOf(w, (r + 1) % 4)
  {
    hide Pack, Byte0, Byte1, Byte2, Byte3, Look;
    ByteOfPack(Look(sbox, Byte0(w)), Look(sbox, Byte1(w)), Look(sbox, Byte2(w)), Look(sbox, Byte3(w)), r);
    ByteOfPack(Byte1(w), Byte2(w), Byte3(w), Byte0(w), r);
  }

  lemma ConstantBytes(n: nat, r: int)
    requires 1 <= n <= 12 && 0 <= r < 4
    ensures ByteOf(RoundConstant(n), r) == if r == 0 then RCON[n - 1] else 0
  {
    hide Pack, ByteOf;
    RconIsDoubled(n - 1);
    ByteOfPack(RCON[n - 1], 0, 0, 0, r);
  }

  // ScheduleWord is the key expansion of section 5.2, byte by byte.
  lemma ExpansionIsStandard(sbox: seq<bv8>, key: seq<bv8>, words: nat, ks: Words, count: nat)
    requires |sbox| == 256 && (words == 4 || words == 8) && |key| == 4 * words && words <= count <= |ks|
    requires (count - 1) / words <= 12
    requires forall i :: 0 <= i < count ==> ks[i] == ScheduleWord(sbox, key, words, i)
    ensures Expands(sbox, key, words, ks, count)
  {
    hide ByteOf, Pack, ScheduleWord, Transformed, ExpandedByte;
    FirstWords(sbox, key, words);
    forall i, r | 0 <= i < words && 0 <= r < 4
      ensures ByteOf(ks[i], r) == key[4 * i + r]
    {
      ByteOfPack(key[4 * i], key[4 * i + 1], key[4 * i + 2], key[4 * i + 3], r);
    }
    forall i, r | words <= i < count && 0 <= r < 4
      ensures i / words <= 12 && ExpandedByte(sbox, ks, words, i, r)
    {
      NextWord(sbox, key, words, i);
      NextBytes(sbox, ks, words, i, r);
    }
  }

  lemma NextBytes(sbox: seq<bv8>, ks: Words, words: nat, i: nat, r: int)
    requires |sbox| == 256 && (words == 4 || words == 8) && words <= i < |ks| && i / words <= 12 && 0 <= r < 4
    requires ks[i] == AddWords(ks[i - words], Transformed(sbox, words, i, ks[i - 1]))
    ensures ExpandedByte(sbox, ks, words, i, r)
  {
    hide ByteOf, Pack, Add, AddWords, SubWord, RotWord, RoundConstant, Look;
    var last := ks[i - 1];
    ByteOfSum(ks[i - words], Transformed(sbox, words, i, last), r);
    if i % words == 0 {
      ByteOfSum(SubWord(sbox, RotWord(last)), RoundConstant(i / words), r);
      SubWordBytes(sbox, RotWord(last), r);
      SubWordBytes(sbox, last, r);
      ConstantBytes(i / words, r);
    } else {
      SubWordBytes(sbox, last, r);
    }
  }

  lemma XorOfBlocks(a: Words, b: Words)
    requires |a| == 4 && |b| == 4
    ensures BlockBytes(XorBlocks(a, b)) == XorBytes(BlockBytes(a), BlockBytes(b))
  {
    hide BlockBytes, AddKey, Add, ByteOf;
    var x := BlockBytes(XorBlocks(a, b));
    forall k | 0 <= k < 16
      ensures x[k] == Add(BlockBytes(a)[k], BlockBytes(b)[k])
    {
      KeyAddedBytes(a, b, 0, k / 4, k % 4);
      ByteOfBlock(a, k / 4, k % 4);
      ByteOfBlock(b, k / 4, k % 4);
    }
  }

  // CipherText is the chaining of the standard's cipher.
  lemma CipherTextChains(key: Key, iv: seq<bv8>, text: seq<bv8>, cipher: seq<bv8>, n: nat)
    requires key.Valid() && |iv| == 16 && 16 * n <= |text| && 16 * n <= |cipher|
    requires cipher[..16 * n] == CipherText(key, LoadBlock(iv, 0), text, n)
    ensures Chains(key.table, key.ks, key.rounds, iv, text, cipher, n)
  {
    hide CipherText, LoadBlock, XorBytes, Enciphers, Before, BlockAt;
    forall b: nat | b < n
      ensures Enciphers(key.table, key.ks, key.rounds, XorBytes(BlockAt(text, b), Before(iv, cipher, b)),
                        BlockAt(cipher, b))
    {
      ChainedBlock(key, iv, text, cipher, n, b);
    }
  }

  lemma ChainedBlock(key: Key, iv: seq<bv8>, text: seq<bv8>, cipher: seq<bv8>, n: nat, b: nat)
    requires key.Valid() && |iv| == 16 && 16 * n <= |text| && 16 * n <= |cipher| && b < n
    requires cipher[..16 * n] == CipherText(key, LoadBlock(iv, 0), text, n)
    ensures Enciphers(key.table, key.ks, key.rounds, XorBytes(BlockAt(text, b), Before(iv, cipher, b)),
                      BlockAt(cipher, b))
  {
    hide CipherText, CipherBlock, LoadBlock, BlockBytes, XorBlocks, XorBytes, Enciphers, EncryptedBlock, BlockAt;
    CipherTextBytes(key, iv, text, cipher, n, b + 1);
    CipherTextBytes(key, iv, text, cipher, n, b);
    hide Before;
    NextCipherBlock(key, LoadBlock(iv, 0), text, b + 1);
    TextBlock(text, b);
    EncipheredSum(key, LoadBlock(text, 16 * b), CipherBlock(key, LoadBlock(iv, 0), text, b));
  }

  lemma TextBlock(text: seq<bv8>, b: nat)
    requires 16 * b + 16 <= |text|
    ensures BlockBytes(LoadBlock(text, 16 * b)) == BlockAt(text, b)
  {
    hide BlockBytes, LoadBlock;
    BytesOfLoadedBlock(text, 16 * b);
  }

  lemma EncipheredSum(key: Key, block: Words, before: Words)
    requires key.Valid() && |block| == 4 && |before| == 4
    ensures Enciphers(key.table, key.ks, key.rounds, XorBytes(BlockBytes(block), BlockBytes(before)),
                      BlockBytes(EncryptedBlock(key.table, key.ks, key.rounds, XorBlocks(block, before))))
  {
    hide BlockBytes, XorBlocks, XorBytes, Enciphers, EncryptedBlock;
    XorOfBlocks(block, before);
    EncryptionIsStandard(key.table, key.ks, key.rounds, XorBlocks(block, before));
  }

  lemma NextCipherBlock(key: Key, iv: Words, text: seq<bv8>, n: nat)
    requires key.Valid() && |iv| == 4 && 1 <= n && 16 * n <= |text|
    ensures CipherBlock(key, iv, text, n) ==
      EncryptedBlock(key.table, key.ks, key.rounds,
                     XorBlocks(LoadBlock(text, 16 * (n - 1)), CipherBlock(key, iv, text, n - 1)))
  {
    hide LoadBlock, XorBlocks, EncryptedBlock;
  }

  lemma CipherTextBytes(key: Key, iv: seq<bv8>, text: seq<bv8>, cipher: seq<bv8>, n: nat, b: nat)
    requires key.Valid() && |iv| == 16 && b <= n && 16 * n <= |text| && 16 * n <= |cipher|
    requires cipher[..16 * n] == CipherText(key, LoadBlock(iv, 0), text, n)
    ensures Before(iv, cipher, b) == BlockBytes(CipherBlock(key, LoadBlock(iv, 0), text, b))
  {
    hide LoadBlock, BlockBytes, CipherText, CipherBlock;
    var start := LoadBlock(iv, 0);
    if b == 0 {
      BytesOfLoadedBlock(iv, 0);
      FirstCipherBlock(key, start, text);
    } else {
      var c := CipherText(key, start, text, n);
      CipherTextPrefix(key, start, text, b, n);
      LastBlockOfText(key, start, text, b);
      assert BlockAt(cipher, b - 1) == c[..16 * b][16 * (b - 1)..16 * b];
    }
  }

  lemma FirstCipherBlock(key: Key, iv: Words, text: seq<bv8>)
    requires key.Valid() && |iv| == 4
    ensures CipherBlock(key, iv, text, 0) == iv
  {}

  lemma LastBlockOfText(key: Key, iv: Words, text: seq<bv8>, n: nat)
    requires key.Valid() && |iv| == 4 && 1 <= n && 16 * n <= |text|
    ensures CipherText(key, iv, text, n)[16 * (n - 1)..16 * n] == BlockBytes(CipherBlock(key, iv, text, n))
  {
    hide BlockBytes, CipherBlock;
  }

  // PlainText is the chaining of the standard's equivalent inverse cipher.
  lemma PlainTextUnchains(key: Key, iv: seq<bv8>, cipher: seq<bv8>, text: seq<bv8>, n: nat)
    requires key.Valid() && |iv| == 16 && 16 * n <= |text| && 16 * n <= |cipher|
    requires text[..16 * n] == PlainText(key, LoadBlock(iv, 0), cipher, n)
    ensures Unchains(key.table, key.ks, key.rounds, iv, cipher, text, n)
  {
    hide PlainText, LoadBlock, BlockBytes, XorBlocks, XorBytes, Deciphers, DecryptedBlock, Previous, Before;
    var start := LoadBlock(iv, 0);
    forall b: nat | b < n
      ensures Deciphers(key.table, key.ks, key.rounds, BlockAt(cipher, b),
                        XorBytes(BlockAt(text, b), Before(iv, cipher, b)))
    {
      PlainTextBlock(key, start, cipher, text, n, b);
      BytesOfLoadedBlock(cipher, 16 * b);
      PreviousBytes(iv, cipher, b);
      var d, p := DecryptedBlock(key.table, key.ks, key.rounds, LoadBlock(cipher, 16 * b)), Previous(start, cipher, b);
      XorOfBlocks(XorBlocks(d, p), p);
      XorTwice(d, p);
      DecryptionIsStandard(key.table, key.ks, key.rounds, LoadBlock(cipher, 16 * b));
    }
  }

  lemma PreviousBytes(iv: seq<bv8>, cipher: seq<bv8>, b: nat)
    requires |iv| == 16 && 16 * b <= |cipher|
    ensures Before(iv, cipher, b) == BlockBytes(Previous(LoadBlock(iv, 0), cipher, b))
  {
    hide LoadBlock, BlockBytes;
    BytesOfLoadedBlock(iv, 0);
    if b > 0 { BytesOfLoadedBlock(cipher, 16 * (b - 1)); }
  }

  lemma {:induction false} PlainTextBlock(key: Key, iv: Words, cipher: seq<bv8>, text: seq<bv8>, n: nat, b: nat)
    requires key.Valid() && |iv| == 4 && b < n && 16 * n <= |cipher| && 16 * n <= |text|
    requires text[..16 * n] == PlainText(key, iv, cipher, n)
    ensures BlockAt(text, b) == BlockBytes(
      XorBlocks(DecryptedBlock(key.table, key.ks, key.rounds, LoadBlock(cipher, 16 * b)), Previous(iv, cipher, b)))
  {
    hide LoadBlock, BlockBytes, XorBlocks, Previous, DecryptedBlock;
    if b == n - 1 {
      assert BlockAt(text, b) == text[..16 * n][16 * b..];
    } else {
      assert text[..16 * (n - 1)] == text[..16 * n][..16 * (n - 1)];
      PlainTextBlock(key, iv, cipher, text, n - 1, b);
    }
  }

  // ---------------------------------------------------------------- what the loops keep

  // After n blocks of encryption: m and o are the buffers as they were, msg, out and buf as they are.
  ghost predicate Encrypting(key: Key, iv: Words, m: seq<bv8>, o: seq<bv8>, n: nat,
                             msg: seq<bv8>, out: seq<bv8>, buf: Words) {
    && key.Valid() && |iv| == 4 && |buf| == 4 && |msg| == |m| && |out| == |o| && 16 * n <= |m| && 16 * n <= |o|
    && buf == CipherBlock(key, iv, m, n)
    && msg[16 * n..] == m[16 * n..] && out[16 * n..] == o[16 * n..]
    && out[..16 * n] == CipherText(key, iv, m, n)
  }

  lemma EncryptingStarts(key: Key, iv: Words, m: seq<bv8>, o: seq<bv8>)
    requires key.Valid() && |iv| == 4
    ensures Encrypting(key, iv, m, o, 0, m, o, iv)
  {}

  lemma EncryptingStep(key: Key, iv: Words, m: seq<bv8>, o: seq<bv8>, n: nat, msg: seq<bv8>, out: seq<bv8>, buf: Words,
                       msg': seq<bv8>, out': seq<bv8>, buf': Words)
    requires Encrypting(key, iv, m, o, n, msg, out, buf) && 16 * n + 16 <= |m| && 16 * n + 16 <= |o|
    requires buf' == EncryptedBlock(key.table, key.ks, key.rounds, XorBlocks(LoadBlock(msg, 16 * n), buf))
    requires out' == out[..16 * n] + BlockBytes(buf') + out[16 * n + 16..]
    requires msg' == msg || (msg == out && msg' == out')
    ensures Encrypting(key, iv, m, o, n + 1, msg', out', buf')
  {
    hide BlockBytes, LoadBlock, XorBlocks, EncryptedBlock;
    var at := 16 * n;
    SameSuffixBlock(msg, m, at);
    Spliced(out, BlockBytes(buf'), at, out');
    ShorterSuffix(out, o, at);
    ShorterSuffix(msg, m, at);
  }

  lemma EncryptingEnds(key: Key, iv: Words, m: seq<bv8>, o: seq<bv8>, n: nat, msg: seq<bv8>, out: seq<bv8>, buf: Words)
    requires Encrypting(key, iv, m, o, n, msg, out, buf)
    ensures 16 * n <= |m| && |out| == |o| && 16 * n <= |o| && key.Valid() && |iv| == 4
    ensures out[..16 * n] == CipherText(key, iv, m, n) && out[16 * n..] == o[16 * n..]
    ensures n > 0 ==> out[16 * n - 16..16 * n] == BlockBytes(CipherBlock(key, iv, m, n))
  {
    hide BlockBytes, CipherBlock;
    if n > 0 {
      assert out[16 * n - 16..16 * n] == out[..16 * n][16 * n - 16..];
    }
  }

  // After n blocks of decryption.
  ghost predicate Decrypting(key: Key, iv: Words, m: seq<bv8>, o: seq<bv8>, n: nat,
                             msg: seq<bv8>, out: seq<bv8>, xor: Words) {
    && key.Valid() && |iv| == 4 && |xor| == 4 && |msg| == |m| && |out| == |o| && 16 * n <= |m| && 16 * n <= |o|
    && xor == Previous(iv, m, n)
    && msg[16 * n..] == m[16 * n..] && out[16 * n..] == o[16 * n..]
    && out[..16 * n] == PlainText(key, iv, m, n)
  }

  lemma DecryptingStarts(key: Key, iv: Words, m: seq<bv8>, o: seq<bv8>)
    requires key.Valid() && |iv| == 4
    ensures Decrypting(key, iv, m, o, 0, m, o, iv)
  {}

  lemma DecryptingStep(key: Key, iv: Words, m: seq<bv8>, o: seq<bv8>, n: nat, msg: seq<bv8>, out: seq<bv8>, xor: Words,
                       msg': seq<bv8>, out': seq<bv8>, buf': Words, xor': Words)
    requires Decrypting(key, iv, m, o, n, msg, out, xor) && 16 * n + 16 <= |m| && 16 * n + 16 <= |o|
    requires buf' == XorBlocks(DecryptedBlock(key.table, key.ks, key.rounds, LoadBlock(msg, 16 * n)), xor)
    requires xor' == LoadBlock(msg, 16 * n)
    requires out' == out[..16 * n] + BlockBytes(buf') + out[16 * n + 16..]
    requires msg' == msg || (msg == out && msg' == out')
    ensures Decrypting(key, iv, m, o, n + 1, msg', out', xor')
  {
    hide BlockBytes, LoadBlock, XorBlocks, DecryptedBlock;
    var at := 16 * n;
    SameSuffixBlock(msg, m, at);
    Spliced(out, BlockBytes(buf'), at, out');
    ShorterSuffix(out, o, at);
    ShorterSuffix(msg, m, at);
  }

  lemma DecryptingEnds(key: Key, iv: Words, m: seq<bv8>, o: seq<bv8>, n: nat, msg: seq<bv8>, out: seq<bv8>, xor: Words)
    requires Decrypting(key, iv, m, o, n, msg, out, xor)
    ensures 16 * n <= |m| && |out| == |o| && 16 * n <= |o| && key.Valid() && |iv| == 4
    ensures out[..16 * n] == PlainText(key, iv, m, n) && out[16 * n..] == o[16 * n..]
    ensures n > 0 ==> |xor| == 4 && BlockBytes(xor) == m[16 * n - 16..16 * n]
  {
    hide BlockBytes, LoadBlock;
    if n > 0 { BytesOfLoadedBlock(m, 16 * n - 16); }
  }

  lemma SameSuffixBlock(b: seq<bv8>, c: seq<bv8>, at: int)
    requires 0 <= at <= |b| - 16 && |c| == |b| && b[at..] == c[at..]
    ensures LoadBlock(b, at) == LoadBlock(c, at)
  {
    hide LoadBlock;
    assert b[at..at + 16] == b[at..][..16] && c[at..at + 16] == c[at..][..16];
    SameBlock(b, c, at);
  }

  // Writing a block of bytes at a position extends the prefix and keeps the rest.
  lemma Spliced(before: seq<bv8>, block: seq<bv8>, at: int, after: seq<bv8>)
    requires |block| == 16 && 0 <= at <= |before| - 16 && after == before[..at] + block + before[at + 16..]
    ensures |after| == |before| && after[..at + 16] == before[..at] + block && after[at + 16..] == before[at + 16..]
  {}

  lemma ShorterSuffix(b: seq<bv8>, c: seq<bv8>, at: int)
    requires 0 <= at <= |b| - 16 && |c| == |b| && b[at..] == c[at..]
    ensures b[at + 16..] == c[at + 16..]
  {
    assert b[at + 16..] == b[at..][16..] && c[at + 16..] == c[at..][16..];
  }

  // ---------------------------------------------------------------- the context

  const MODE_128 := 0
  const MODE_256 := 1
  const MAX_WORDS := 120

  class Context {
    var rounds: int
    var keySize: int
    const ks: array<bv32>
    const iv: array<bv8>

    constructor ()
      ensures fresh(ks) && fresh(iv) && ks.Length == MAX_WORDS && iv.Length == 16
    {
      ks, iv := new bv32[MAX_WORDS], new bv8[16];
      rounds, keySize := 0, 0;
    }

    // The buffers have their sizes and a key has been set.
    ghost predicate Ready()
      reads this
    {
      ks.Length == MAX_WORDS && iv.Length == 16 && 1 <= rounds <= 14
    }

    ghost function KeyWith(table: seq<bv8>): (key: Key)
      requires Ready() && |table| == 256
      reads this, ks
      ensures key.Valid()
    {
      Key(table, ks[..], rounds)
    }

    // AES_hncpy32 from bytes: count words of the key from word at.
    method LoadKeyWords(key: array<bv8>, at: int)
      requires ks.Length == MAX_WORDS && 0 <= at <= 4 && 4 * at + 16 <= key.Length
      modifies ks
      ensures forall i :: at <= i < at + 4 ==> ks[i] == LoadWord(key[..], 4 * i)
      ensures forall i :: 0 <= i < MAX_WORDS && !(at <= i < at + 4) ==> ks[i] == old(ks[i])
    {
      hide Pack;
      var i := at;
      while i < at + 4
        invariant at <= i <= at + 4
        invariant forall k :: at <= k < i ==> ks[k] == LoadWord(key[..], 4 * k)
        invariant forall k :: 0 <= k < MAX_WORDS && !(at <= k < i) ==> ks[k] == old(ks[k])
      {
        ks[i] := Pack(key[4 * i], key[4 * i + 1], key[4 * i + 2], key[4 * i + 3]);
        i := i + 1;
      }
    }

    // AES_set_key: for an unknown mode nothing happens.
    method SetKey(sbox: array<bv8>, key: array<bv8>, newIv: array<bv8>, mode: int)
      requires ks.Length == MAX_WORDS && iv.Length == 16 && sbox.Length == 256 && newIv.Length == 16
      requires sbox != iv && newIv != iv && key != iv
      requires mode == MODE_128 ==> key.Length == 16
      requires mode == MODE_256 ==> key.Length == 32
      modifies this, ks, iv
      ensures mode == MODE_128 ==> rounds == 10 && keySize == 4
      ensures mode == MODE_256 ==> rounds == 14 && keySize == 8
      ensures mode == MODE_128 || mode == MODE_256 ==> iv[..] == newIv[..]
      ensures mode == MODE_128 || mode == MODE_256 ==>
        forall i :: 0 <= i < 4 * (rounds + 1) ==> ks[i] == ScheduleWord(sbox[..], key[..], keySize, i)
      ensures mode == MODE_128 || mode == MODE_256 ==> Expands(sbox[..], key[..], keySize, ks[..], 4 * (rounds + 1))
      ensures forall i :: 0 <= i < MAX_WORDS && 4 * (rounds + 1) <= i ==> ks[i] == old(ks[i])
      ensures mode != MODE_128 && mode != MODE_256 ==>
        rounds == old(rounds) && keySize == old(keySize) && ks[..] == old(ks[..]) && iv[..] == old(iv[..])
    {
      hide ScheduleWord, Expands;
      var words;
      if mode == MODE_128 {
        rounds, words := 10, 4;
      } else if mode == MODE_256 {
        rounds, words := 14, 8;
        LoadKeyWords(key, 4);
      } else {
        return;
      }
      LoadKeyWords(key, 0);
      keySize := words;
      FirstWords(sbox[..], key[..], words);
      var i := words;
      ghost var r := rounds;
      while i < 4 * (rounds + 1)
        invariant words <= i <= 4 * (rounds + 1) && rounds == r && keySize == words
        invariant forall k :: 0 <= k < i ==> ks[k] == ScheduleWord(sbox[..], key[..], words, k)
        invariant forall k :: 4 * (rounds + 1) <= k < MAX_WORDS ==> ks[k] == old(ks[k])
      {
        var tmp := TransformWord(sbox, words, i, ks[i - 1]);
        NextWord(sbox[..], key[..], words, i);
        ks[i] := AddWords(ks[i - words], tmp);
        i := i + 1;
      }
      ExpansionIsStandard(sbox[..], key[..], words, ks[..], 4 * (rounds + 1));
      CopyIv(newIv);
    }

    // AES_cbc_encrypt: whole blocks are encrypted, a remainder is left out. The buffers may be the same.
    method CbcEncrypt(sbox: array<bv8>, msg: array<bv8>, out: array<bv8>, length: int)
      requires Ready() && sbox.Length == 256 && 16 <= length <= msg.Length && length <= out.Length
      requires out != iv && msg != iv && sbox != iv && sbox != out
      modifies out, iv
      ensures Ready() && rounds == old(rounds) && ks[..] == old(ks[..])
      ensures var n := length / 16; var key := old(KeyWith(sbox[..])); var start := LoadBlock(old(iv[..]), 0);
        && out[..16 * n] == CipherText(key, start, old(msg[..]), n)
        && out[16 * n..] == old(out[16 * n..])
        && iv[..] == BlockBytes(CipherBlock(key, start, old(msg[..]), n)) == out[16 * (n - 1)..16 * n]
        && Chains(key.table, key.ks, key.rounds, old(iv[..]), old(msg[..]), out[..], n)
    {
      hide Chains, Encrypting, CipherText, CipherBlock, BlockBytes, LoadBlock;
      var buf := new bv32[4];
      ghost var m, o, key, start := msg[..], out[..], KeyWith(sbox[..]), LoadBlock(iv[..], 0);
      LoadInto(iv, 0, buf);
      EncryptBlocks(sbox, msg, out, length, buf);
      var n := length / 16;
      EncryptingEnds(key, start, m, o, n, msg[..], out[..], buf[..]);
      assert out[..][..16 * n] == out[..16 * n];
      CipherTextChains(key, iv[..], m, out[..], n);
      CopyBlock(out, 16 * n - 16, iv);
    }

    // The loop of AES_cbc_encrypt.
    method EncryptBlocks(sbox: array<bv8>, msg: array<bv8>, out: array<bv8>, length: int, buf: array<bv32>)
      requires Ready() && sbox.Length == 256 && 16 <= length <= msg.Length && length <= out.Length
      requires out != iv && msg != iv && sbox != iv && sbox != out && buf.Length == 4 && buf != ks
      modifies out, buf
      ensures Encrypting(old(KeyWith(sbox[..])), old(buf[..]), old(msg[..]), old(out[..]), length / 16,
        msg[..], out[..], buf[..])
    {
      hide Encrypting, BlockBytes, LoadBlock, XorBlocks, EncryptedBlock;
      ghost var m, o, key, start := msg[..], out[..], KeyWith(sbox[..]), buf[..];
      EncryptingStarts(key, start, m, o);
      var at, left := 0, length - 16;
      ghost var n := 0;
      while left >= 0
        invariant 0 <= n && at == 16 * n && left == length - 16 * n - 16 && left >= -16
        invariant ks[..] == key.ks && sbox[..] == key.table
        invariant Encrypting(key, start, m, o, n, msg[..], out[..], buf[..])
      {
        EncryptOne(sbox, msg, out, at, buf, key, start, m, o, n);
        at, left, n := at + 16, left - 16, n + 1;
      }
    }

    // One turn of that loop.
    method EncryptOne(sbox: array<bv8>, msg: array<bv8>, out: array<bv8>, at: int, buf: array<bv32>,
                      ghost key: Key, ghost start: Words, ghost m: seq<bv8>, ghost o: seq<bv8>, ghost n: nat)
      requires Ready() && sbox.Length == 256 && sbox != out && buf.Length == 4 && buf != ks
      requires at == 16 * n && at <= msg.Length - 16 && at <= out.Length - 16
      requires key == KeyWith(sbox[..]) && Encrypting(key, start, m, o, n, msg[..], out[..], buf[..])
      modifies out, buf
      ensures Encrypting(key, start, m, o, n + 1, msg[..], out[..], buf[..])
    {
      hide BlockBytes, LoadBlock, XorBlocks, EncryptedBlock, CipherText, CipherBlock;
      ghost var msg0, out0, buf0 := msg[..], out[..], buf[..];
      AddBlock(msg, at, buf);
      EncryptBlock(sbox, ks, rounds, buf);
      StoreBlock(buf, out, at);
      EncryptingStep(key, start, m, o, n, msg0, out0, buf0, msg[..], out[..], buf[..]);
    }

    // AES_cbc_decrypt. The buffers may be the same.
    method CbcDecrypt(isbox: array<bv8>, msg: array<bv8>, out: array<bv8>, length: int)
      requires Ready() && isbox.Length == 256 && 16 <= length <= msg.Length && length <= out.Length
      requires out != iv && msg != iv && isbox != iv && isbox != out
      modifies out, iv
      ensures Ready() && rounds == old(rounds) && ks[..] == old(ks[..])
      ensures var n := length / 16; var key := old(KeyWith(isbox[..])); var start := LoadBlock(old(iv[..]), 0);
        && out[..16 * n] == PlainText(key, start, old(msg[..]), n)
        && out[16 * n..] == old(out[16 * n..])
        && iv[..] == old(msg[16 * (n - 1)..16 * n])
        && Unchains(key.table, key.ks, key.rounds, old(iv[..]), old(msg[..]), out[..], n)
    {
      hide Unchains, Decrypting, PlainText, BlockBytes, LoadBlock;
      var tin, xor := new bv32[4], new bv32[4];
      ghost var m, o, key, start := msg[..], out[..], KeyWith(isbox[..]), LoadBlock(iv[..], 0);
      LoadInto(iv, 0, xor);
      DecryptBlocks(isbox, msg, out, length, tin, xor);
      DecryptingEnds(key, start, m, o, length / 16, msg[..], out[..], xor[..]);
      assert out[..][..16 * (length / 16)] == out[..16 * (length / 16)];
      PlainTextUnchains(key, iv[..], m, out[..], length / 16);
      StoreBlock(tin, iv, 0);
    }

    // The loop of AES_cbc_decrypt; tin is left with the last block read.
    method DecryptBlocks(isbox: array<bv8>, msg: array<bv8>, out: array<bv8>, length: int,
                         tin: array<bv32>, xor: array<bv32>)
      requires Ready() && isbox.Length == 256 && 16 <= length <= msg.Length && length <= out.Length
      requires out != iv && msg != iv && isbox != iv && isbox != out
      requires xor.Length == 4 && tin.Length == 4 && xor != tin && xor != ks && tin != ks
      modifies out, tin, xor
      ensures Decrypting(old(KeyWith(isbox[..])), old(xor[..]), old(msg[..]), old(out[..]), length / 16,
        msg[..], out[..], xor[..])
      ensures tin[..] == xor[..]
    {
      hide Decrypting, BlockBytes, LoadBlock, XorBlocks, DecryptedBlock;
      var buf := new bv32[4];
      ghost var m, o, key, start := msg[..], out[..], KeyWith(isbox[..]), xor[..];
      DecryptingStarts(key, start, m, o);
      var at, left := 0, length - 16;
      ghost var n := 0;
      while left >= 0
        invariant 0 <= n && at == 16 * n && left == length - 16 * n - 16 && left >= -16
        invariant ks[..] == key.ks && isbox[..] == key.table
        invariant Decrypting(key, start, m, o, n, msg[..], out[..], xor[..])
        invariant n > 0 ==> tin[..] == xor[..]
      {
        DecryptOne(isbox, msg, out, at, tin, xor, buf, key, start, m, o, n);
        at, left, n := at + 16, left - 16, n + 1;
      }
    }

    // One turn of that loop.
    method DecryptOne(isbox: array<bv8>, msg: array<bv8>, out: array<bv8>, at: int, tin: array<bv32>, xor: array<bv32>,
                      buf: array<bv32>, ghost key: Key, ghost start: Words,
                      ghost m: seq<bv8>, ghost o: seq<bv8>, ghost n: nat)
      requires Ready() && isbox.Length == 256 && isbox != out
      requires buf.Length == xor.Length == tin.Length == 4 && buf != ks && xor != ks && tin != ks
      requires xor != tin && buf != tin && buf != xor
      requires at == 16 * n && at <= msg.Length - 16 && at <= out.Length - 16
      requires key == KeyWith(isbox[..]) && Decrypting(key, start, m, o, n, msg[..], out[..], xor[..])
      modifies out, tin, xor, buf
      ensures Decrypting(key, start, m, o, n + 1, msg[..], out[..], xor[..])
      ensures tin[..] == xor[..]
    {
      hide BlockBytes, LoadBlock, XorBlocks, DecryptedBlock, PlainText, Previous;
      ghost var msg0, out0, xor0 := msg[..], out[..], xor[..];
      LoadInto(msg, at, tin);
      CopyWords(tin, buf);
      DecryptBlock(isbox, ks, rounds, buf);
      AddWordsInto(xor, buf);
      StoreBlock(buf, out, at);
      CopyWords(tin, xor);
      DecryptingStep(key, start, m, o, n, msg0, out0, xor0, msg[..], out[..], buf[..], xor[..]);
    }

    method CopyIv(newIv: array<bv8>)
      requires iv.Length == 16 && newIv.Length == 16 && newIv != iv
      modifies iv
      ensures iv[..] == newIv[..]
    {
      var i := 0;
      while i < 16
        invariant 0 <= i <= 16 && forall k :: 0 <= k < i ==> iv[k] == newIv[k]
      {
        iv[i] := newIv[i];
        i := i + 1;
      }
    }
  }

  // ---------------------------------------------------------------- moving words between buffers

  // AES_hncpy32 from bytes to words.
  method LoadInto(src: array<bv8>, at: int, dst: array<bv32>)
    requires dst.Length == 4 && 0 <= at <= src.Length - 16
    modifies dst
    ensures dst[..] == LoadBlock(src[..], at)
  {
    hide Pack;
    dst[0] := Pack(src[at], src[at + 1], src[at + 2], src[at + 3]);
    dst[1] := Pack(src[at + 4], src[at + 5], src[at + 6], src[at + 7]);
    dst[2] := Pack(src[at + 8], src[at + 9], src[at + 10], src[at + 11]);
    dst[3] := Pack(src[at + 12], src[at + 13], src[at + 14], src[at + 15]);
  }

  // buf[i] = ntohl(msg[i]) ^ buf[i]
  method AddBlock(msg: array<bv8>, at: int, buf: array<bv32>)
    requires buf.Length == 4 && 0 <= at <= msg.Length - 16
    modifies buf
    ensures buf[..] == XorBlocks(LoadBlock(msg[..], at), old(buf[..]))
  {
    hide Pack, AddWords;
    buf[0] := AddWords(Pack(msg[at], msg[at + 1], msg[at + 2], msg[at + 3]), buf[0]);
    buf[1] := AddWords(Pack(msg[at + 4], msg[at + 5], msg[at + 6], msg[at + 7]), buf[1]);
    buf[2] := AddWords(Pack(msg[at + 8], msg[at + 9], msg[at + 10], msg[at + 11]), buf[2]);
    buf[3] := AddWords(Pack(msg[at + 12], msg[at + 13], msg[at + 14], msg[at + 15]), buf[3]);
  }

  method AddWordsInto(xor: array<bv32>, buf: array<bv32>)
    requires buf.Length == 4 && xor.Length == 4 && buf != xor
    modifies buf
    ensures buf[..] == XorBlocks(old(buf[..]), xor[..])
  {
    hide AddWords;
    buf[0] := AddWords(buf[0], xor[0]);
    buf[1] := AddWords(buf[1], xor[1]);
    buf[2] := AddWords(buf[2], xor[2]);
    buf[3] := AddWords(buf[3], xor[3]);
  }

  method CopyWords(src: array<bv32>, dst: array<bv32>)
    requires src.Length == 4 && dst.Length == 4 && src != dst
    modifies dst
    ensures dst[..] == src[..]
  {
    dst[0], dst[1], dst[2], dst[3] := src[0], src[1], src[2], src[3];
  }

  method CopyBlock(src: array<bv8>, at: int, dst: array<bv8>)
    requires dst.Length == 16 && 0 <= at <= src.Length - 16 && src != dst
    modifies dst
    ensures dst[..] == src[at..at + 16]
  {
    var i := 0;
    while i < 16
      invariant 0 <= i <= 16 && forall k :: 0 <= k < i ==> dst[k] == src[at + k]
    {
      dst[i] := src[at + i];
      i := i + 1;
    }
  }

  method StoreWord(w: bv32, out: array<bv8>, at: int)
    requires 0 <= at <= out.Length - 4
    modifies out
    ensures out[..] == old(out[..])[..at] + WordBytes(w) + old(out[..])[at + 4..]
  {
    hide Byte0, Byte1, Byte2, Byte3;
    out[at], out[at + 1], out[at + 2], out[at + 3] := Byte0(w), Byte1(w), Byte2(w), Byte3(w);
  }

  // AES_hncpy32 from words to bytes.
  method StoreBlock(w: array<bv32>, out: array<bv8>, at: int)
    requires w.Length == 4 && 0 <= at <= out.Length - 16
    modifies out
    ensures out[..] == old(out[..])[..at] + BlockBytes(w[..]) + old(out[..])[at + 16..]
  {
    hide WordBytes, BlockBytes;
    ghost var s0 := out[..];
    StoreTwo(w[0], w[1], out, at);
    ghost var s1 := out[..];
    StoreTwo(w[2], w[3], out, at + 8);
    Joined(s0, s1, out[..], WordBytes(w[0]) + WordBytes(w[1]), WordBytes(w[2]) + WordBytes(w[3]), at, 8);
    BlockIsTwoHalves(w[..]);
  }

  lemma BlockIsTwoHalves(w: Words)
    requires |w| == 4
    ensures BlockBytes(w) == (WordBytes(w[0]) + WordBytes(w[1])) + (WordBytes(w[2]) + WordBytes(w[3]))
  {
    hide WordBytes;
  }

  method StoreTwo(v: bv32, w: bv32, out: array<bv8>, at: int)
    requires 0 <= at <= out.Length - 8
    modifies out
    ensures out[..] == old(out[..])[..at] + (WordBytes(v) + WordBytes(w)) + old(out[..])[at + 8..]
  {
    hide WordBytes;
    ghost var s0 := out[..];
    StoreWord(v, out, at);
    ghost var s1 := out[..];
    StoreWord(w, out, at + 4);
    Joined(s0, s1, out[..], WordBytes(v), WordBytes(w), at, 4);
  }

  lemma Joined(s: seq<bv8>, s': seq<bv8>, s'': seq<bv8>, p: seq<bv8>, q: seq<bv8>, at: int, n: int)
    requires |p| == |q| == n && 0 <= at <= |s| - 2 * n
    requires s' == s[..at] + p + s[at + n..]
    requires |s'| == |s| ==> s'' == s'[..at + n] + q + s'[at + 2 * n..]
    ensures s'' == s[..at] + (p + q) + s[at + 2 * n..]
  {}

  lemma FirstWords(sbox: seq<bv8>, key: seq<bv8>, words: nat)
    requires |sbox| == 256 && 1 <= words && |key| == 4 * words
    ensures forall i :: 0 <= i < words ==> ScheduleWord(sbox, key, words, i) == LoadWord(key, 4 * i)
  {}

  lemma NextWord(sbox: seq<bv8>, key: seq<bv8>, words: nat, i: nat)
    requires |sbox| == 256 && 1 <= words <= i && |key| == 4 * words
    ensures ScheduleWord(sbox, key, words, i) ==
            AddWords(ScheduleWord(sbox, key, words, i - words),
                     Transformed(sbox, words, i, ScheduleWord(sbox, key, words, i - 1)))
  {
    hide AddWords, Transformed;
  }

  // The body of the key expansion loop before the sum; the source's pointer rtmp has moved i / words - 1 entries on.
  method TransformWord(sbox: array<bv8>, words: int, i: int, before: bv32) returns (tmp: bv32)
    requires sbox.Length == 256 && (words == 4 || words == 8) && words <= i < 60
    requires words == 4 ==> i < 44
    ensures tmp == Transformed(sbox[..], words, i, before)
  {
    hide AddWords, SubWord, RotWord;
    tmp := before;
    if i % words == 0 {
      var tmp2 := SubstituteRotated(sbox, tmp);
      ConstantOf(i / words);
      tmp := AddWords(tmp2, Pack(RCON[i / words - 1], 0, 0, 0));
    }
    if words == 8 && i % words == 4 {
      tmp := Substitute(sbox, tmp);
    }
  }

  lemma ConstantOf(n: nat)
    requires 1 <= n <= 12
    ensures Pack(RCON[n - 1], 0, 0, 0) == RoundConstant(n)
  {
    hide Pack;
    RconIsDoubled(n - 1);
  }

  method Substitute(sbox: array<bv8>, w: bv32) returns (r: bv32)
    requires sbox.Length == 256
    ensures r == SubWord(sbox[..], w)
  {
    hide Pack, Byte0, Byte1, Byte2, Byte3;
    r := Pack(sbox[Byte0(w) as int], sbox[Byte1(w) as int], sbox[Byte2(w) as int], sbox[Byte3(w) as int]);
  }

  method SubstituteRotated(sbox: array<bv8>, w: bv32) returns (r: bv32)
    requires sbox.Length == 256
    ensures r == SubWord(sbox[..], RotWord(w))
  {
    RotatedParts(w);
    hide Pack, Byte0, Byte1, Byte2, Byte3, RotWord;
    r := Pack(sbox[Byte1(w) as int], sbox[Byte2(w) as int], sbox[Byte3(w) as int], sbox[Byte0(w) as int]);
  }

  lemma RotatedParts(w: bv32)
    ensures var r := RotWord(w);
      Byte0(r) == Byte1(w) && Byte1(r) == Byte2(w) && Byte2(r) == Byte3(w) && Byte3(r) == Byte0(w)
  {
    hide Pack, Byte0, Byte1, Byte2, Byte3;
    PackedBytes(Byte1(w), Byte2(w), Byte3(w), Byte0(w));
  }

  // ---------------------------------------------------------------- main: there and back

  lemma {:induction false} PlainTextOfPrefix(key: Key, iv: Words, c: seq<bv8>, c': seq<bv8>, n: nat)
    requires key.Valid() && |iv| == 4 && 16 * n <= |c| && 16 * n <= |c'| && c[..16 * n] == c'[..16 * n]
    ensures PlainText(key, iv, c, n) == PlainText(key, iv, c', n)
  {
    hide BlockBytes, LoadBlock, XorBlocks, Key.Decrypt;
    if n > 0 {
      ShorterPrefix(c, c', 16 * n - 16, 16 * n);
      PlainTextOfPrefix(key, iv, c, c', n - 1);
      PrefixBlock(c, c', 16 * n, 16 * n - 16);
      if n > 1 { PrefixBlock(c, c', 16 * n, 16 * n - 32); }
    }
  }

  lemma ShorterPrefix(c: seq<bv8>, c': seq<bv8>, m: int, n: int)
    requires 0 <= m <= n <= |c| && n <= |c'| && c[..n] == c'[..n]
    ensures c[..m] == c'[..m]
  {
    assert c[..m] == c[..n][..m] && c'[..m] == c'[..n][..m];
  }

  lemma PrefixBlock(c: seq<bv8>, c': seq<bv8>, n: int, at: int)
    requires 0 <= at <= n - 16 && n <= |c| && n <= |c'| && c[..n] == c'[..n]
    ensures LoadBlock(c, at) == LoadBlock(c', at)
  {
    hide LoadBlock;
    assert c[at..at + 16] == c[..n][at..at + 16] && c'[at..at + 16] == c'[..n][at..at + 16];
    SameBlock(c, c', at);
  }

  // Chained encryption, then chained decryption of its output, starting from the same vector.
  lemma ThereAndBack(key: Key, back: Key, iv: Words, text: seq<bv8>, cipher: seq<bv8>, n: nat)
    requires key.Valid() && back.Valid() && |iv| == 4 && 16 * n <= |text| && 16 * n <= |cipher|
    requires back.rounds == key.rounds && Inverts(back.table, key.table) && Converted(key.ks, back.ks, key.rounds)
    requires cipher[..16 * n] == CipherText(key, iv, text, n)
    ensures PlainText(back, iv, cipher, n) == text[..16 * n]
  {
    hide CipherText, PlainText, Inverts, Converted;
    CbcRoundTrip(key, back, iv, text, n, n);
    PlainTextOfPrefix(back, iv, cipher, CipherText(key, iv, text, n), n);
  }

  // AES_set_key and AES_cbc_encrypt.
  method SetAndEncrypt(ctx: Context, sbox: array<bv8>, key: array<bv8>, iv: array<bv8>, mode: int,
                       data: array<bv8>, crypt: array<bv8>, length: int)
    requires mode == MODE_128 || mode == MODE_256
    requires key.Length == (if mode == MODE_128 then 16 else 32) && iv.Length == 16
    requires ctx.ks.Length == MAX_WORDS && ctx.iv.Length == 16 && sbox.Length == 256
    requires 16 <= length <= data.Length && length <= crypt.Length
    requires ctx.iv != sbox && ctx.iv != key && ctx.iv != iv && ctx.iv != data && ctx.iv != crypt
    requires crypt != sbox && crypt != key && crypt != iv && crypt != data
    modifies ctx, ctx.ks, ctx.iv, crypt
    ensures ctx.Ready() && ctx.rounds == (if mode == MODE_128 then 10 else 14)
    ensures forall i :: 0 <= i < 4 * (ctx.rounds + 1) ==>
      ctx.ks[i] == ScheduleWord(sbox[..], key[..], if mode == MODE_128 then 4 else 8, i)
    ensures Expands(sbox[..], key[..], if mode == MODE_128 then 4 else 8, ctx.ks[..], 4 * (ctx.rounds + 1))
    ensures crypt[..][..16 * (length / 16)] ==
            CipherText(ctx.KeyWith(sbox[..]), LoadBlock(iv[..], 0), data[..], length / 16)
    ensures Chains(sbox[..], ctx.ks[..], ctx.rounds, iv[..], data[..], crypt[..], length / 16)
  {
    hide Expands, Chains, ScheduleWord, CipherText, LoadBlock, BlockBytes, CipherBlock;
    ctx.SetKey(sbox, key, iv, mode);
    ctx.CbcEncrypt(sbox, data, crypt, length);
  }

  // AES_set_key, AES_convert_key and AES_cbc_decrypt.
  method SetAndDecrypt(ctx: Context, sbox: array<bv8>, isbox: array<bv8>, key: array<bv8>, iv: array<bv8>, mode: int,
                       crypt: array<bv8>, decode: array<bv8>, length: int, ghost ks: Words) returns (ghost back: Key)
    requires mode == MODE_128 || mode == MODE_256
    requires key.Length == (if mode == MODE_128 then 16 else 32) && iv.Length == 16
    requires ctx.ks.Length == MAX_WORDS && ctx.iv.Length == 16 && sbox.Length == 256 && isbox.Length == 256
    requires 16 <= length <= crypt.Length && length <= decode.Length
    requires ctx.iv != sbox && ctx.iv != isbox && ctx.iv != key && ctx.iv != iv && ctx.iv != crypt && ctx.iv != decode
    requires decode != sbox && decode != isbox && decode != key && decode != iv && decode != crypt
    requires ks == ctx.ks[..] && ctx.rounds == (if mode == MODE_128 then 10 else 14)
    requires forall i :: 0 <= i < 4 * (ctx.rounds + 1) ==>
      ks[i] == ScheduleWord(sbox[..], key[..], if mode == MODE_128 then 4 else 8, i)
    modifies ctx, ctx.ks, ctx.iv, decode
    ensures back.Valid() && back.rounds == old(ctx.rounds) && back.table == isbox[..]
    ensures Converted(ks, back.ks, back.rounds)
    ensures decode[..][..16 * (length / 16)] == PlainText(back, LoadBlock(iv[..], 0), crypt[..], length / 16)
  {
    hide ScheduleWord, PlainText, LoadBlock, BlockBytes, Converted;
    ctx.SetKey(sbox, key, iv, mode);
    assert ctx.ks[..] == ks;
    ConvertKey(ctx.ks, ctx.rounds);
    back := ctx.KeyWith(isbox[..]);
    ctx.CbcDecrypt(isbox, crypt, decode, length);
  }

  // The calls main makes for one key: `crypt` is the cipher text under the standard's S-box and the schedule of the
  // key, and every whole block of data is back.
  method EncryptThenDecrypt(key: array<bv8>, iv: array<bv8>, mode: int, data: array<bv8>, length: int)
      returns (crypt: array<bv8>, decode: array<bv8>, ghost there: Key)
    requires mode == MODE_128 || mode == MODE_256
    requires key.Length == (if mode == MODE_128 then 16 else 32) && iv.Length == 16 && 16 <= length <= data.Length
    ensures there.Valid() && there.rounds == (if mode == MODE_128 then 10 else 14) && IsSBox(there.table)
    ensures forall i :: 0 <= i < 4 * (there.rounds + 1) ==>
      there.ks[i] == ScheduleWord(there.table, key[..], if mode == MODE_128 then 4 else 8, i)
    ensures Expands(there.table, key[..], if mode == MODE_128 then 4 else 8, there.ks, 4 * (there.rounds + 1))
    ensures crypt.Length == length
    ensures crypt[..16 * (length / 16)] == CipherText(there, LoadBlock(iv[..], 0), data[..], length / 16)
    ensures Chains(there.table, there.ks, there.rounds, iv[..], data[..], crypt[..], length / 16)
    ensures decode.Length == length && decode[..16 * (length / 16)] == data[..16 * (length / 16)]
  {
    hide Expands, Chains, IsSBox, Inverts, Converted, ScheduleWord, CipherText, PlainText, LoadBlock;
    var sbox, isbox := new bv8[256], new bv8[256];
    GenerateSBox(sbox, isbox);
    InverseSizes(isbox[..], sbox[..]);
    var ctx := new Context();
    crypt, decode := new bv8[length], new bv8[length];
    ghost var n, text, start := length / 16, data[..], LoadBlock(iv[..], 0);
    SetAndEncrypt(ctx, sbox, key, iv, mode, data, crypt, length);
    there := ctx.KeyWith(sbox[..]);
    ghost var back := SetAndDecrypt(ctx, sbox, isbox, key, iv, mode, crypt, decode, length, ctx.ks[..]);
    ThereAndBack(there, back, start, text, crypt[..], n);
  }

  lemma InverseSizes(isbox: seq<bv8>, sbox: seq<bv8>)
    requires Inverts(isbox, sbox)
    ensures |isbox| == 256 && |sbox| == 256
  {}
}

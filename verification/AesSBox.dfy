/**
 AES_generateSBox of aes_lite/aes.c. It never multiplies or inverts in the field: it tabulates powers of 3 and
 pairs the i-th with the (255 - i)-th. The result is the S-box of FIPS 197 section 5.1.1, with its inverse.
 */
module AesSBox {
  import opened AesProduct
  import opened AesStandard
  import opened AesCipher

  // The affine transformation of section 5.1.1.
  function Affine(x: bv8): bv8 {
    x ^ ((x << 1) | (x >> 7)) ^ ((x << 2) | (x >> 6)) ^ ((x << 3) | (x >> 5)) ^ ((x << 4) | (x >> 4)) ^ 0x63
  }

  // The S-box: the multiplicative inverse (of zero: zero), transformed.
  ghost predicate IsSBox(s: seq<bv8>) {
    |s| == 256 && Look(s, 0) == Affine(0) && forall y, z :: Times(y, z) == 1 ==> Look(s, y) == Affine(z)
  }

  // Bit by bit, as the standard writes it: bit i is the sum of bits i, i + 4, i + 5, i + 6 and i + 7 (modulo 8), and of
  // bit i of 0x63.
  lemma AffineBits(x: bv8)
    ensures (Affine(x) & 1 != 0) == Sum5(x & 1 != 0, x & 16 != 0, x & 32 != 0, x & 64 != 0, x & 128 != 0, true)
    ensures (Affine(x) & 2 != 0) == Sum5(x & 2 != 0, x & 32 != 0, x & 64 != 0, x & 128 != 0, x & 1 != 0, true)
    ensures (Affine(x) & 4 != 0) == Sum5(x & 4 != 0, x & 64 != 0, x & 128 != 0, x & 1 != 0, x & 2 != 0, false)
    ensures (Affine(x) & 8 != 0) == Sum5(x & 8 != 0, x & 128 != 0, x & 1 != 0, x & 2 != 0, x & 4 != 0, false)
    ensures (Affine(x) & 16 != 0) == Sum5(x & 16 != 0, x & 1 != 0, x & 2 != 0, x & 4 != 0, x & 8 != 0, false)
    ensures (Affine(x) & 32 != 0) == Sum5(x & 32 != 0, x & 2 != 0, x & 4 != 0, x & 8 != 0, x & 16 != 0, true)
    ensures (Affine(x) & 64 != 0) == Sum5(x & 64 != 0, x & 4 != 0, x & 8 != 0, x & 16 != 0, x & 32 != 0, true)
    ensures (Affine(x) & 128 != 0) == Sum5(x & 128 != 0, x & 8 != 0, x & 16 != 0, x & 32 != 0, x & 64 != 0, false)
  {}

  function Sum5(a: bool, b: bool, c: bool, d: bool, e: bool, constant: bool): bool {
    ((((a != b) != c) != d) != e) != constant
  }

  // The entry the standard gives as an example, and the first.
  lemma SBoxEntries(s: seq<bv8>)
    requires IsSBox(s)
    ensures Look(s, 0x00) == 0x63 && Look(s, 0x53) == 0xED
  {
    ProductExamples();
  }

  // ---------------------------------------------------------------- every byte but zero is a power of three

  lemma {:induction false} EveryValueOccurs(s: seq<int>, n: nat, v: int)
    requires |s| == n && 1 <= v <= n
    requires forall i :: 0 <= i < n ==> 1 <= s[i] <= n
    requires forall i, j :: 0 <= i < j < n ==> s[i] != s[j]
    ensures v in s
  {
    if n in s {
      if v != n {
        var k :| 0 <= k < n && s[k] == n;
        Without(s, n, k);
        EveryValueOccurs(s[..k] + s[k + 1..], n - 1, v);
      }
    } else {
      var last := s[n - 1];
      assert s[n - 1] in s;
      forall i | 0 <= i < n
        ensures s[i] <= n - 1
      {
        assert s[i] in s;
      }
      EveryValueOccurs(s[..n - 1], n - 1, last);
    }
  }

  lemma Without(s: seq<int>, n: nat, k: int)
    requires |s| == n && 0 <= k < n && s[k] == n
    requires forall i :: 0 <= i < n ==> 1 <= s[i] <= n
    requires forall i, j :: 0 <= i < j < n ==> s[i] != s[j]
    ensures var rest := s[..k] + s[k + 1..];
      && |rest| == n - 1
      && (forall i :: 0 <= i < n - 1 ==> 1 <= rest[i] <= n - 1)
      && (forall i, j :: 0 <= i < j < n - 1 ==> rest[i] != rest[j])
      && (forall v :: v in rest ==> v in s)
  {
    var rest := s[..k] + s[k + 1..];
    forall i | 0 <= i < n - 1
      ensures rest[i] == s[if i < k then i else i + 1] && 1 <= rest[i] <= n - 1
    {
      assert s[if i < k then i else i + 1] != s[k];
    }
  }

  function Number(x: bv8): int { x as int }

  lemma NumbersDiffer(x: bv8, y: bv8)
    ensures x != y ==> Number(x) != Number(y)
    ensures x != 0 ==> 1 <= Number(x) <= 255
  {
    PositiveByte(x);
    SameByte(x, y);
  }

  // The 255 powers as numbers.
  lemma PowerValues() returns (s: seq<int>)
    ensures |s| == 255 && forall k :: 0 <= k < 255 ==> s[k] == Number(Power(k, 1)) && 1 <= s[k] <= 255
    ensures forall k, j :: 0 <= k < j < 255 ==> s[k] != s[j]
  {
    hide Power, Number;
    s := seq(255, k requires 0 <= k < 255 => Number(Power(k, 1)));
    forall k | 0 <= k < 255
      ensures 1 <= s[k] <= 255
    {
      PowerIsNotZero(k);
      NumbersDiffer(Power(k, 1), 0);
    }
    forall k, j | 0 <= k < j < 255
      ensures s[k] != s[j]
    {
      PowersAreDistinct(k, j);
      NumbersDiffer(Power(k, 1), Power(j, 1));
    }
  }

  lemma NonzeroIsPower(x: bv8) returns (i: nat)
    requires x != 0
    ensures i < 255 && Power(i, 1) == x
  {
    hide Power, Number;
    var s := PowerValues();
    NumbersDiffer(x, 0);
    EveryValueOccurs(s, 255, Number(x));
    i :| 0 <= i < 255 && s[i] == Number(x);
    NumbersDiffer(Power(i, 1), x);
  }

  lemma PositiveByte(x: bv8)
    ensures 0 <= x as int < 256 && (x != 0 ==> 1 <= x as int)
    ensures (x as int) as bv8 == x && (x as bv32) as int == x as int
  {}

  lemma SameByte(x: bv8, y: bv8)
    ensures x as int == y as int ==> x == y
  {}

  // ---------------------------------------------------------------- inverses

  lemma PowersPair(i: nat)
    requires i <= 255
    ensures Times(Power(i, 1), Power(255 - i, 1)) == 1
  {
    hide Power, Times;
    Multiples17();
    PowerIsProduct(i, Power(255 - i, 1));
    PowersAdd(i, 255 - i, 1);
  }

  // The only inverse of the i-th power is the (255 - i)-th.
  lemma InverseOfPower(i: nat, z: bv8)
    requires i <= 255 && Times(Power(i, 1), z) == 1
    ensures z == Power(255 - i, 1)
  {
    hide Power, Times;
    Multiples17();
    PowerIsProduct(i, z);
    PowerIsProduct(255, z);
    SmallMultiples(z);
    PowersAdd(255 - i, i, z);
  }

  lemma SamePowerBack(i: nat, j: nat)
    requires i < 255 && j < 255 && Power(255 - i, 1) == Power(255 - j, 1)
    ensures Power(i, 1) == Power(j, 1)
  {
    hide Power;
    Multiples17();
    PowersAdd(i + j, 255 - i, 1);
    PowersAdd(i + j, 255 - j, 1);
    PowersAdd(i, 255, 1);
    PowersAdd(j, 255, 1);
  }

  // Every byte but zero has an inverse, so an S-box is determined everywhere.
  lemma SBoxIsUnique(s: seq<bv8>, s': seq<bv8>)
    requires IsSBox(s) && IsSBox(s')
    ensures s == s'
  {
    assert |s| == 256 && |s'| == 256;
    hide IsSBox;
    forall k | 0 <= k < 256
      ensures s[k] == s'[k]
    {
      IndexOfByte(k);
      SameEntry(s, s', k as bv8);
    }
  }

  lemma SameEntry(s: seq<bv8>, s': seq<bv8>, y: bv8)
    requires IsSBox(s) && IsSBox(s')
    ensures |s| == 256 && |s'| == 256 && s[y as int] == s'[y as int]
  {
    assert Look(s, y) == s[y as int] && Look(s', y) == s'[y as int];
    hide Times, Affine, Look, Power;
    if y != 0 {
      var i := NonzeroIsPower(y);
      PowersPair(i);
    }
  }

  function CountUp(k: nat): bv8 { if k == 0 then 0 else CountUp(k - 1) + 1 }

  lemma {:induction false} CountsUp(k: nat)
    requires k < 256
    ensures CountUp(k) as int == k
  {
    if k > 0 {
      CountsUp(k - 1);
      NextByte(CountUp(k - 1));
    }
  }

  lemma NextByte(b: bv8)
    requires b as int < 255
    ensures (b + 1) as int == b as int + 1
  {}

  lemma IndexOfByte(k: int)
    requires 0 <= k < 256
    ensures (k as bv8) as int == k
  {
    hide CountUp;
    CountsUp(k);
    PositiveByte(CountUp(k));
  }

  lemma AffineUndone(x: bv8)
    ensures var a := Affine(x); ((a << 1) | (a >> 7)) ^ ((a << 3) | (a >> 5)) ^ ((a << 6) | (a >> 2)) ^ 0x05 == x
  {}

  lemma AffineIsInjective(x: bv8, y: bv8)
    requires Affine(x) == Affine(y)
    ensures x == y
  {
    AffineUndone(x);
    AffineUndone(y);
  }

  lemma SBoxIsInjective(s: seq<bv8>, x: bv8, y: bv8)
    requires IsSBox(s) && Look(s, x) == Look(s, y)
    ensures x == y
  {
    hide Times, Affine, Look, Power;
    if x != 0 && y != 0 {
      var i := NonzeroIsPower(x);
      var j := NonzeroIsPower(y);
      PowersPair(i);
      PowersPair(j);
      AffineIsInjective(Power(255 - i, 1), Power(255 - j, 1));
      SamePowerBack(i, j);
    } else if x != 0 {
      var i := NonzeroIsPower(x);
      PowersPair(i);
      AffineIsInjective(Power(255 - i, 1), 0);
      PowerIsNotZero(255 - i);
    } else if y != 0 {
      var j := NonzeroIsPower(y);
      PowersPair(j);
      AffineIsInjective(Power(255 - j, 1), 0);
      PowerIsNotZero(255 - j);
    }
  }

  // ---------------------------------------------------------------- AES_generateSBox

  lemma NextPower(b: bv8)
    ensures var x := b as bv32; x ^ ((x << 1) ^ ((x >> 7) * 0x11B)) == Triple(b) as bv32
  {}

  // What the loop computes from an entry x of t.
  function AffineWord(x: bv32): bv8 {
    var y := x | (x << 8);
    (((y ^ ((y >> 4) ^ (y >> 5) ^ (y >> 6) ^ (y >> 7))) ^ 0x63) & 0xFF) as bv8
  }

  lemma AffineOnWords(b: bv8)
    ensures AffineWord(b as bv32) == Affine(b)
  {}

  // The first loop: the powers of 3.
  method PowersOfThree(t: array<bv32>)
    requires t.Length == 256
    modifies t
    ensures forall k :: 0 <= k < 256 ==> t[k] == Power(k, 1) as bv32
  {
    hide Triple;
    var i, x := 0, 1 as bv32;
    while i < 256
      invariant 0 <= i <= 256 && x == Power(i, 1) as bv32
      invariant forall k :: 0 <= k < i ==> t[k] == Power(k, 1) as bv32
    {
      t[i] := x;
      NextPower(Power(i, 1));
      x := x ^ ((x << 1) ^ ((x >> 7) * 0x11B));
      i := i + 1;
    }
  }

  // The second loop: the S-box.
  method FillSBox(t: array<bv32>, sbox: array<bv8>)
    requires t.Length == 256 && sbox.Length == 256
    requires forall k :: 0 <= k < 256 ==> t[k] == Power(k, 1) as bv32
    modifies sbox
    ensures IsSBox(sbox[..])
  {
    hide Power, Affine, IsSBox;
    sbox[0] := 0x63;
    AffineOfZero();
    var i := 0;
    while i < 255
      invariant 0 <= i <= 255 && sbox[0] == Affine(0)
      invariant forall k :: 0 <= k < i ==> sbox[Power(k, 1) as int] == Affine(Power(255 - k, 1))
    {
      NewEntry(i);
      StoreEntry(t, sbox, i);
      i := i + 1;
    }
    TableIsSBox(sbox[..]);
  }

  method StoreEntry(t: array<bv32>, sbox: array<bv8>, i: int)
    requires t.Length == 256 && sbox.Length == 256 && 0 <= i < 255
    requires t[i] == Power(i, 1) as bv32 && t[255 - i] == Power(255 - i, 1) as bv32
    modifies sbox
    ensures sbox[Power(i, 1) as int] == Affine(Power(255 - i, 1))
    ensures forall k :: 0 <= k < 256 && k != Power(i, 1) as int ==> sbox[k] == old(sbox[k])
  {
    hide Power, Affine, AffineWord;
    AffineOnWords(Power(255 - i, 1));
    PositiveByte(Power(i, 1));
    sbox[t[i] as int] := AffineWord(t[255 - i]);
  }

  // No entry is written twice.
  lemma NewEntry(i: nat)
    requires i < 255
    ensures (Power(i, 1) as bv32) as int == Power(i, 1) as int && 0 < Power(i, 1) as int < 256
    ensures forall k :: 0 <= k < i ==> Power(k, 1) as int != Power(i, 1) as int
  {
    hide Power;
    PositiveByte(Power(i, 1));
    PowerIsNotZero(i);
    forall k | 0 <= k < i
      ensures Power(k, 1) as int != Power(i, 1) as int
    {
      PowersAreDistinct(k, i);
      SameByte(Power(k, 1), Power(i, 1));
    }
  }

  lemma AffineOfZero()
    ensures Affine(0) == 0x63
  {}

  lemma TableIsSBox(s: seq<bv8>)
    requires |s| == 256 && s[0] == Affine(0)
    requires forall k :: 0 <= k < 255 ==> s[Power(k, 1) as int] == Affine(Power(255 - k, 1))
    ensures IsSBox(s)
  {
    hide Affine, Times, Power;
    forall y, z | Times(y, z) == 1
      ensures Look(s, y) == Affine(z)
    {
      SmallMultiples(z);
      var i := NonzeroIsPower(y);
      InverseOfPower(i, z);
    }
  }

  // The third loop: the inverse table.
  method InvertSBox(sbox: array<bv8>, isbox: array<bv8>)
    requires sbox.Length == 256 && isbox.Length == 256 && sbox != isbox && IsSBox(sbox[..])
    modifies isbox
    ensures sbox[..] == old(sbox[..]) && Inverts(isbox[..], sbox[..])
  {
    ghost var s := sbox[..];
    hide IsSBox;
    forall k, j | 0 <= k < j < 256
      ensures s[k] as int != s[j] as int
    {
      DistinctEntries(s, k, j);
    }
    var i := 0;
    while i < 256
      invariant 0 <= i <= 256 && sbox[..] == s
      invariant forall k :: 0 <= k < i ==> isbox[s[k] as int] == k as bv8
    {
      isbox[sbox[i] as int] := i as bv8;
      i := i + 1;
    }
    forall x: bv8
      ensures Look(isbox[..], Look(s, x)) == x
    {
      PositiveByte(x);
      assert isbox[s[x as int] as int] == (x as int) as bv8;
    }
  }

  lemma DistinctEntries(s: seq<bv8>, k: int, j: int)
    requires IsSBox(s) && 0 <= k < j < 256
    ensures |s| == 256 && s[k] as int != s[j] as int
  {
    assert |s| == 256;
    hide IsSBox;
    IndexOfByte(k);
    IndexOfByte(j);
    SameByte(s[k], s[j]);
    DistinctLooks(s, k as bv8, j as bv8);
  }

  lemma DistinctLooks(s: seq<bv8>, x: bv8, y: bv8)
    requires IsSBox(s) && x != y
    ensures |s| == 256 && s[x as int] != s[y as int]
  {
    assert |s| == 256 && Look(s, x) == s[x as int] && Look(s, y) == s[y as int];
    hide IsSBox, Look;
    if s[x as int] == s[y as int] { SBoxIsInjective(s, x, y); }
  }

  method GenerateSBox(sbox: array<bv8>, isbox: array<bv8>)
    requires sbox.Length == 256 && isbox.Length == 256 && sbox != isbox
    modifies sbox, isbox
    ensures IsSBox(sbox[..]) && Inverts(isbox[..], sbox[..])
  {
    hide IsSBox, Inverts, Power;
    var t := new bv32[256];
    PowersOfThree(t);
    FillSBox(t, sbox);
    InvertSBox(sbox, isbox);
  }
}

/**
 The Base64 text of app/base64.c (section 5.2 of RFC 1341) on values: what base64_encode writes, what
 base64_decode makes of any text, and that the second undoes the first.
 */
module Base64Spec {
  import opened PowersOfTwo

  datatype Option<T> = None | Some(value: T)

  type Byte = x: int | 0 <= x < 256

  const LF: Byte := 10
  const PAD: Byte := 61

  // base64_table: A to Z, a to z, 0 to 9, + and /.
  function Letter(v: int): Byte
    requires 0 <= v < 64
  {
    if v < 26 then 'A' as int + v
    else if v < 52 then 'a' as int + (v - 26)
    else if v < 62 then '0' as int + (v - 52)
    else if v == 62 then '+' as int
    else '/' as int
  }

  const ALPHABET := "ABCDEFGHIJKLMNOPQRSTUVWXYZ" + "abcdefghijklmnopqrstuvwxyz" + "0123456789+/"

  // The alphabet, character by character.
  lemma LetterIs(v: int)
    requires 0 <= v < 64
    ensures |ALPHABET| == 64 && Letter(v) == ALPHABET[v] as int
    ensures Letter(v) == ("ABCDEFGHIJKLMNOPQRSTUVWXYZ" + "abcdefghijklmnopqrstuvwxyz" + "0123456789+/")[v] as int
  {
    if v < 26 { Upper(v); } else if v < 52 { Lower(v); } else { Digit(v); }
  }

  lemma Upper(v: int)
    requires 0 <= v < 26
    ensures "ABCDEFGHIJKLMNOPQRSTUVWXYZ"[v] as int == Letter(v)
  {}

  lemma Lower(v: int)
    requires 26 <= v < 52
    ensures "abcdefghijklmnopqrstuvwxyz"[v - 26] as int == Letter(v)
  {}

  lemma Digit(v: int)
    requires 52 <= v < 64
    ensures "0123456789+/"[v - 52] as int == Letter(v)
  {}

  // The position of a character in the table, or 0x80.
  function Code(c: Byte): (v: int)
    ensures 0 <= v < 64 || v == 128
    ensures v < 64 ==> Letter(v) == c
  {
    if 65 <= c <= 90 then c - 65
    else if 97 <= c <= 122 then c - 71
    else if 48 <= c <= 57 then c + 4
    else if c == 43 then 62
    else if c == 47 then 63
    else 128
  }

  lemma CodeOfLetter(v: int)
    requires 0 <= v < 64
    ensures Code(Letter(v)) == v && Letter(v) != PAD && Letter(v) != LF
  {}

  // dtable
  function Value(c: Byte): (v: int)
    ensures 0 <= v < 64 || v == 128
  {
    if c == PAD then 0 else Code(c)
  }

  // ---------------------------------------------------------------- encoding

  function Quad(a: Byte, b: Byte, c: Byte): seq<Byte> {
    [Letter(a / 4), Letter(a % 4 * 16 + b / 16), Letter(b % 16 * 4 + c / 64), Letter(c % 64)]
  }

  // The last group, of one or two bytes.
  function Tail(rest: seq<Byte>): seq<Byte>
    requires |rest| < 3
  {
    if |rest| == 0 then []
    else if |rest| == 1 then [Letter(rest[0] / 4), Letter(rest[0] % 4 * 16), PAD, PAD]
    else [Letter(rest[0] / 4), Letter(rest[0] % 4 * 16 + rest[1] / 16), Letter(rest[1] % 16 * 4), PAD]
  }

  // The first n groups of three bytes, with a line feed after every eighteenth.
  function Groups(src: seq<Byte>, n: nat): (text: seq<Byte>)
    requires 3 * n <= |src|
    ensures |text| == 4 * n + n / 18
  {
    if n == 0 then []
    else Groups(src, n - 1) + Quad(src[3 * n - 3], src[3 * n - 2], src[3 * n - 1]) + LineEnd(n % 18 == 0)
  }

  function LineEnd(ends: bool): seq<Byte> { if ends then [LF] else [] }

  predicate OpenLine(length: nat) { length / 3 % 18 != 0 || length % 3 != 0 }

  function Encoded(src: seq<Byte>): seq<Byte> {
    Groups(src, |src| / 3) + Tail(src[3 * (|src| / 3)..]) + LineEnd(OpenLine(|src|))
  }

  // ---------------------------------------------------------------- decoding

  // The characters that count: letters and padding.
  function Kept(s: seq<Byte>): seq<Byte> {
    if s == [] then []
    else Kept(s[..|s| - 1]) + if Value(s[|s| - 1]) != 128 then [s[|s| - 1]] else []
  }

  function Pads(s: seq<Byte>): nat {
    if s == [] then 0 else Pads(s[..|s| - 1]) + if s[|s| - 1] == PAD then 1 else 0
  }

  // The three bytes stored for four values; each store keeps the low eight bits.
  function Triple(v0: int, v1: int, v2: int, v3: int): (r: seq<Byte>)
    ensures |r| == 3
  {
    [(v0 * 4 + v1 / 16) % 256, (v1 * 16 + v2 / 4) % 256, (v2 * 64 + v3) % 256]
  }

  function TripleAt(f: seq<Byte>, k: nat): (r: seq<Byte>)
    requires k + 4 <= |f|
    ensures |r| == 3
  {
    Triple(Value(f[k]), Value(f[k + 1]), Value(f[k + 2]), Value(f[k + 3]))
  }

  // Four at a time, to the first group with padding.
  function DecodedGroups(f: seq<Byte>): Option<seq<Byte>> {
    if |f| < 4 then Some([])
    else
      var pad := Pads(f[..4]);
      if pad == 0 then Prepended(TripleAt(f, 0), DecodedGroups(f[4..]))
      else if pad <= 2 then Some(TripleAt(f, 0)[..3 - pad])
      else None
  }

  function Prepended(head: seq<Byte>, rest: Option<seq<Byte>>): Option<seq<Byte>> {
    match rest
    case None => None
    case Some(s) => Some(head + s)
  }

  // None stands for the null pointer.
  function Decoded(text: seq<Byte>): Option<seq<Byte>> {
    var f := Kept(text);
    if |f| == 0 || |f| % 4 != 0 then None else DecodedGroups(f)
  }

  // ---------------------------------------------------------------- the round trip

  lemma {:induction false} KeptAppend(a: seq<Byte>, b: seq<Byte>)
    ensures Kept(a + b) == Kept(a) + Kept(b)
  {
    if b == [] {
      assert a + b == a;
    } else {
      var n := |b| - 1;
      KeptAppend(a, b[..n]);
      assert (a + b)[..|a + b| - 1] == a + b[..n];
    }
  }

  lemma {:induction false} AllKept(s: seq<Byte>)
    requires forall k :: 0 <= k < |s| ==> Value(s[k]) != 128
    ensures Kept(s) == s
  {
    if s != [] {
      AllKept(s[..|s| - 1]);
      assert s == s[..|s| - 1] + [s[|s| - 1]];
    }
  }

  lemma {:induction false} NoPadsIn(s: seq<Byte>)
    requires forall k :: 0 <= k < |s| ==> s[k] != PAD
    ensures Pads(s) == 0
  {
    if s != [] { NoPadsIn(s[..|s| - 1]); }
  }

  // The groups without their line feeds.
  function Letters(src: seq<Byte>, n: nat): (text: seq<Byte>)
    requires 3 * n <= |src|
    ensures |text| == 4 * n
  {
    if n == 0 then [] else Letters(src, n - 1) + Quad(src[3 * n - 3], src[3 * n - 2], src[3 * n - 1])
  }

  lemma QuadLetters(a: Byte, b: Byte, c: Byte)
    ensures forall k :: 0 <= k < 4 ==> Quad(a, b, c)[k] != PAD && Value(Quad(a, b, c)[k]) != 128
    ensures Value(Quad(a, b, c)[0]) == a / 4 && Value(Quad(a, b, c)[1]) == a % 4 * 16 + b / 16
    ensures Value(Quad(a, b, c)[2]) == b % 16 * 4 + c / 64 && Value(Quad(a, b, c)[3]) == c % 64
  {
    CodeOfLetter(a / 4);
    CodeOfLetter(a % 4 * 16 + b / 16);
    CodeOfLetter(b % 16 * 4 + c / 64);
    CodeOfLetter(c % 64);
  }

  lemma {:induction false} KeptGroups(src: seq<Byte>, n: nat)
    requires 3 * n <= |src|
    ensures Kept(Groups(src, n)) == Letters(src, n)
  {
    hide Quad, Value, LineEnd, Kept, Groups;
    KeptNothing();
    MoreGroups(src, n);
    if n > 0 {
      KeptGroups(src, n - 1);
      var a, b, c := src[3 * n - 3], src[3 * n - 2], src[3 * n - 1];
      var line := Quad(a, b, c) + LineEnd(n % 18 == 0);
      KeptGroup(a, b, c, n % 18 == 0);
      KeptAppend(Groups(src, n - 1), line);
    }
  }

  lemma KeptGroup(a: Byte, b: Byte, c: Byte, ends: bool)
    ensures Kept(Quad(a, b, c) + LineEnd(ends)) == Quad(a, b, c)
  {
    hide Quad, Value, LineEnd, Kept;
    QuadLetters(a, b, c);
    QuadSize(a, b, c);
    AllKept(Quad(a, b, c));
    KeptLineEnd(ends);
    KeptAppend(Quad(a, b, c), LineEnd(ends));
  }

  lemma MoreGroups(src: seq<Byte>, n: nat)
    requires 3 * n <= |src|
    ensures Groups(src, n) == if n == 0 then [] else
      Groups(src, n - 1) + (Quad(src[3 * n - 3], src[3 * n - 2], src[3 * n - 1]) + LineEnd(n % 18 == 0))
  {
    hide Quad, LineEnd;
  }

  lemma KeptNothing()
    ensures Kept([]) == []
  {}

  lemma KeptLineEnd(ends: bool)
    ensures Kept(LineEnd(ends)) == []
  {
    assert [LF][..0] == [];
  }

  lemma {:induction false} LettersAt(src: seq<Byte>, n: nat, k: nat)
    requires 3 * n <= |src| && k < n
    ensures Letters(src, n)[4 * k..4 * k + 4] == Quad(src[3 * k], src[3 * k + 1], src[3 * k + 2])
  {
    hide Quad;
    QuadSize(src[3 * n - 3], src[3 * n - 2], src[3 * n - 1]);
    if k < n - 1 {
      LettersAt(src, n - 1, k);
      assert Letters(src, n)[4 * k..4 * k + 4] == Letters(src, n - 1)[4 * k..4 * k + 4];
    }
  }

  lemma QuadSize(a: Byte, b: Byte, c: Byte)
    ensures |Quad(a, b, c)| == 4
  {}

  lemma TripleOfQuad(a: Byte, b: Byte, c: Byte)
    ensures Triple(a / 4, a % 4 * 16 + b / 16, b % 16 * 4 + c / 64, c % 64) == [a, b, c]
  {
    FirstByte(a, b / 16);
    SecondByte(a % 4, b, c / 64);
    ThirdByte(b % 16, c);
  }

  lemma FirstByte(a: Byte, y: int)
    requires 0 <= y < 16
    ensures (a / 4 * 4 + (a % 4 * 16 + y) / 16) % 256 == a
  {}

  lemma SecondByte(x: int, b: Byte, y: int)
    requires 0 <= x < 4 && 0 <= y < 4
    ensures ((x * 16 + b / 16) * 16 + (b % 16 * 4 + y) / 4) % 256 == b
  {
    assert (x * 16 + b / 16) * 16 + b % 16 == x * 256 + b;
  }

  lemma ThirdByte(x: int, c: Byte)
    requires 0 <= x < 16
    ensures ((x * 4 + c / 64) * 64 + c % 64) % 256 == c
  {
    assert (x * 4 + c / 64) * 64 + c % 64 == x * 256 + c;
  }

  lemma DecodedTail(rest: seq<Byte>)
    requires |rest| < 3
    ensures |Tail(rest)| % 4 == 0 && DecodedGroups(Tail(rest)) == Some(rest)
    ensures Kept(Tail(rest)) == Tail(rest)
  {
    if |rest| == 1 {
      assert rest == [rest[0]];
      OneLeft(rest[0]);
    } else if |rest| == 2 {
      assert rest == [rest[0], rest[1]];
      TwoLeft(rest[0], rest[1]);
    } else {
      assert rest == [];
    }
  }

  lemma OneLeft(a: Byte)
    ensures var t := Tail([a]); |t| == 4 && DecodedGroups(t) == Some([a]) && Kept(t) == t
  {
    var t := Tail([a]);
    CodeOfLetter(a / 4);
    CodeOfLetter(a % 4 * 16);
    FirstByte(a, 0);
    PadsOfFour(t);
    AllKept(t);
    assert t[..4] == t;
    assert TripleAt(t, 0)[..1] == [a];
  }

  lemma TwoLeft(a: Byte, b: Byte)
    ensures var t := Tail([a, b]); |t| == 4 && DecodedGroups(t) == Some([a, b]) && Kept(t) == t
  {
    var t := Tail([a, b]);
    CodeOfLetter(a / 4);
    CodeOfLetter(a % 4 * 16 + b / 16);
    CodeOfLetter(b % 16 * 4);
    FirstByte(a, b / 16);
    SecondByte(a % 4, b, 0);
    PadsOfFour(t);
    AllKept(t);
    assert t[..4] == t;
    assert TripleAt(t, 0)[..2] == [a, b];
  }

  function One(c: Byte): nat { if c == PAD then 1 else 0 }

  lemma PadsOfFour(s: seq<Byte>)
    requires |s| == 4
    ensures Pads(s) == One(s[0]) + One(s[1]) + One(s[2]) + One(s[3])
  {
    var s3 := s[..3];
    var s2 := s3[..2];
    var s1 := s2[..1];
    assert s1[..0] == [];
    assert Pads(s1) == One(s[0]);
    assert Pads(s2) == One(s[0]) + One(s[1]);
  }

  lemma {:induction false} DecodedLetters(src: seq<Byte>, n: nat, k: nat)
    requires 3 * n <= |src| < 3 * n + 3 && k <= n
    ensures var f := Letters(src, n)[4 * k..] + Tail(src[3 * n..]);
      |f| % 4 == 0 && DecodedGroups(f) == Some(src[3 * k..])
    decreases n - k
  {
    hide Quad, Triple, Value, Tail, Letters, DecodedGroups;
    var tail := Tail(src[3 * n..]);
    DecodedTail(src[3 * n..]);
    var f := Letters(src, n)[4 * k..] + tail;
    if k == n {
      assert f == tail;
    } else {
      DecodedLetters(src, n, k + 1);
      NextGroup(src, n, k, tail);
      var a, b, c := src[3 * k], src[3 * k + 1], src[3 * k + 2];
      FirstGroup(f, a, b, c);
      assert src[3 * k..] == [a, b, c] + src[3 * (k + 1)..];
    }
  }

  lemma NextGroup(src: seq<Byte>, n: nat, k: nat, tail: seq<Byte>)
    requires 3 * n <= |src| && k < n
    ensures var f := Letters(src, n)[4 * k..] + tail;
      && f[..4] == Quad(src[3 * k], src[3 * k + 1], src[3 * k + 2])
      && f[4..] == Letters(src, n)[4 * (k + 1)..] + tail
  {
    hide Quad, Letters;
    LettersAt(src, n, k);
    var f := Letters(src, n)[4 * k..] + tail;
    assert f[..4] == Letters(src, n)[4 * k..4 * k + 4];
  }

  lemma FirstGroup(f: seq<Byte>, a: Byte, b: Byte, c: Byte)
    requires 4 <= |f| && f[..4] == Quad(a, b, c)
    ensures DecodedGroups(f) == Prepended([a, b, c], DecodedGroups(f[4..]))
  {
    var q := f[..4];
    assert f[0] == q[0] && f[1] == q[1] && f[2] == q[2] && f[3] == q[3];
    hide Quad, Triple, Value, Pads, Prepended;
    QuadLetters(a, b, c);
    NoPadsIn(q);
    TripleOfQuad(a, b, c);
  }

  // Decoding the encoding gives the bytes back, except that for no bytes there is no text to decode.
  lemma RoundTrip(src: seq<Byte>)
    ensures Decoded(Encoded(src)) == if src == [] then None else Some(src)
  {
    hide Tail, Groups, Letters, DecodedGroups, LineEnd;
    var n := |src| / 3;
    var tail := Tail(src[3 * n..]);
    KeptGroups(src, n);
    DecodedTail(src[3 * n..]);
    KeptLineEnd(OpenLine(|src|));
    KeptAppend(Groups(src, n), tail);
    KeptAppend(Groups(src, n) + tail, LineEnd(OpenLine(|src|)));
    DecodedLetters(src, n, 0);
    var f := Letters(src, n) + tail;
    assert Kept(Encoded(src)) == f + [] == f;
    assert Letters(src, n)[4 * 0..] == Letters(src, n) && src[3 * 0..] == src;
    TailSize(src[3 * n..]);
  }

  lemma TailSize(rest: seq<Byte>)
    requires |rest| < 3
    ensures |Tail(rest)| == if rest == [] then 0 else 4
  {}

  // ---------------------------------------------------------------- the lines

  lemma {:induction false} GroupLines(src: seq<Byte>, n: nat, p: nat)
    requires 3 * n <= |src| && p < |Groups(src, n)|
    ensures Groups(src, n)[p] == LF <==> p % 73 == 72
  {
    hide Quad, Groups, LineEnd;
    MoreGroups(src, n);
    MoreGroups(src, 0);
    var length := 4 * (n - 1) + (n - 1) / 18;
    var a, b, c := src[3 * n - 3], src[3 * n - 2], src[3 * n - 1];
    LineOffset(n - 1);
    if p < length {
      GroupLines(src, n - 1, p);
    } else {
      QuadSize(a, b, c);
      LineEndIs(n % 18 == 0);
      if p < length + 4 {
        assert Groups(src, n)[p] == Quad(a, b, c)[p - length];
        NoFeedInQuad(a, b, c, p - length);
        OffsetInLine(length, p - length);
      } else {
        assert n % 18 == 0 && p == length + 4;
        OffsetInLine(length, 4);
      }
    }
  }

  lemma LineOffset(n: nat)
    ensures (4 * n + n / 18) % 73 == 4 * (n % 18)
  {
    assert 4 * n + n / 18 == 73 * (n / 18) + 4 * (n % 18);
  }

  lemma OffsetInLine(length: nat, k: nat)
    requires length % 73 <= 68 && k <= 4
    ensures (length + k) % 73 == length % 73 + k
  {}

  lemma LineEndIs(ends: bool)
    ensures LineEnd(ends) == if ends then [LF] else []
  {}

  lemma NoFeedInQuad(a: Byte, b: Byte, c: Byte, k: nat)
    requires k < 4
    ensures |Quad(a, b, c)| == 4 && Quad(a, b, c)[k] != LF
  {
    CodeOfLetter(a / 4);
    CodeOfLetter(a % 4 * 16 + b / 16);
    CodeOfLetter(b % 16 * 4 + c / 64);
    CodeOfLetter(c % 64);
  }

  lemma NoFeedInTail(rest: seq<Byte>, k: nat)
    requires |rest| < 3 && k < |Tail(rest)|
    ensures Tail(rest)[k] != LF
  {
    CodeOfLetter(rest[0] / 4);
    CodeOfLetter(rest[0] % 4 * 16);
    if |rest| == 2 {
      CodeOfLetter(rest[0] % 4 * 16 + rest[1] / 16);
      CodeOfLetter(rest[1] % 16 * 4);
    }
  }

  // Line feeds stand after every seventy-two characters and at the end, and nowhere else.
  lemma Lines(src: seq<Byte>, p: nat)
    requires p < |Encoded(src)|
    ensures Encoded(src)[p] == LF <==> p % 73 == 72 || p == |Encoded(src)| - 1
  {
    var n := |src| / 3;
    var rest := src[3 * n..];
    EncodedParts(src, n);
    TailSize(rest);
    LineOffset(n);
    hide Encoded, Tail, Groups, OpenLine;
    var length := 4 * n + n / 18;
    var text, tail := Groups(src, n), Tail(rest);
    if p < length {
      assert Encoded(src)[p] == text[p];
      GroupLines(src, n, p);
      if p == |Encoded(src)| - 1 { LastOfLine(length); }
    } else if p < length + |tail| {
      assert Encoded(src)[p] == tail[p - length];
      NoFeedInTail(rest, p - length);
      OffsetInLine(length, p - length);
    } else {
      assert Encoded(src)[p] == LF;
    }
  }

  lemma EncodedParts(src: seq<Byte>, n: nat)
    requires n == |src| / 3
    ensures var rest := src[3 * n..]; var body := Groups(src, n) + Tail(rest);
      && Encoded(src) == (if OpenLine(|src|) then body + [LF] else body)
      && (!OpenLine(|src|) ==> rest == [] && n % 18 == 0)
      && (rest == [] ==> Tail(rest) == [])
  {
    hide Groups;
  }

  lemma LastOfLine(length: nat)
    requires length > 0 && length % 73 == 0
    ensures (length - 1) % 73 == 72
  {}

  // ---------------------------------------------------------------- the text by its six-bit fields

  // Three bytes, or four six-bit values, as one number of 24 bits.
  function Bits24(a: int, b: int, c: int): int { 65536 * a + 256 * b + c }
  function Joined24(v0: int, v1: int, v2: int, v3: int): int { 262144 * v0 + 4096 * v1 + 64 * v2 + v3 }

  // The j-th six-bit field.
  function Field(n: int, j: int): (v: int)
    requires 0 <= j < 4
    ensures 0 <= v < 64
  {
    (if j == 0 then n / 262144 else if j == 1 then n / 4096 else if j == 2 then n / 64 else n) % 64
  }

  // The j-th byte.
  function ByteAt24(n: int, j: int): (b: int)
    requires 0 <= j < 3
    ensures 0 <= b < 256
  {
    (if j == 0 then n / 65536 else if j == 1 then n / 256 else n) % 256
  }

  // At place p of the text: the first `symbols` fields of n, then padding.
  ghost predicate GroupAt(text: seq<Byte>, p: nat, n: int, symbols: int) {
    && p + 4 <= |text|
    && forall j :: 0 <= j < 4 ==>
         text[p + j] == if j < symbols then ALPHABET[Field(n, j)] as int else '=' as int
  }

  // RFC 1341, section 5.2: groups of three bytes as four symbols, the last padded, in lines of 72 characters.
  ghost predicate IsBase64(text: seq<Byte>, src: seq<Byte>) {
    var n, rest := |src| / 3, |src| % 3;
    var symbols := 4 * ((|src| + 2) / 3);
    && |text| == symbols + (symbols + 71) / 72
    && (forall k :: 0 <= k < n ==> GroupAt(text, PlaceOf(k), Bits24(src[3 * k], src[3 * k + 1], src[3 * k + 2]), 4))
    && (rest == 1 ==> GroupAt(text, PlaceOf(n), Bits24(src[3 * n], 0, 0), 2))
    && (rest == 2 ==> GroupAt(text, PlaceOf(n), Bits24(src[3 * n], src[3 * n + 1], 0), 3))
    && forall p :: 0 <= p < |text| ==> (text[p] == 10 <==> p % 73 == 72 || p == |text| - 1)
  }

  // Where group k begins: after four characters for each group, and a line feed for every eighteen.
  function PlaceOf(k: nat): nat { 4 * k + k / 18 }

  lemma FieldsOf(v0: int, v1: int, v2: int, v3: int)
    requires 0 <= v0 < 64 && 0 <= v1 < 64 && 0 <= v2 < 64 && 0 <= v3 < 64
    ensures var n := Joined24(v0, v1, v2, v3);
      Field(n, 0) == v0 && Field(n, 1) == v1 && Field(n, 2) == v2 && Field(n, 3) == v3
  {
    var n := Joined24(v0, v1, v2, v3);
    QuotientUnique(n, 262144, v0, 4096 * v1 + 64 * v2 + v3);
    QuotientUnique(n, 4096, 64 * v0 + v1, 64 * v2 + v3);
    QuotientUnique(n, 64, 4096 * v0 + 64 * v1 + v2, v3);
  }

  lemma QuadValues(a: Byte, b: Byte, c: Byte)
    ensures var v1, v2 := a % 4 * 16 + b / 16, b % 16 * 4 + c / 64;
      Bits24(a, b, c) == Joined24(a / 4, v1, v2, c % 64) && 0 <= v1 < 64 && 0 <= v2 < 64
  {}

  lemma QuadFields(a: Byte, b: Byte, c: Byte)
    ensures |Quad(a, b, c)| == 4
    ensures forall j :: 0 <= j < 4 ==> Quad(a, b, c)[j] == ALPHABET[Field(Bits24(a, b, c), j)] as int
  {
    hide Letter, Field, Bits24, Joined24;
    QuadValues(a, b, c);
    FieldsOf(a / 4, a % 4 * 16 + b / 16, b % 16 * 4 + c / 64, c % 64);
    LetterIs(a / 4);
    LetterIs(a % 4 * 16 + b / 16);
    LetterIs(b % 16 * 4 + c / 64);
    LetterIs(c % 64);
  }

  lemma OneByteFields(a: Byte)
    ensures Field(Bits24(a, 0, 0), 0) == a / 4 && Field(Bits24(a, 0, 0), 1) == a % 4 * 16
  {
    hide Field;
    assert Bits24(a, 0, 0) == Joined24(a / 4, a % 4 * 16, 0, 0);
    FieldsOf(a / 4, a % 4 * 16, 0, 0);
  }

  lemma TwoByteFields(a: Byte, b: Byte)
    ensures var n, v1 := Bits24(a, b, 0), a % 4 * 16 + b / 16;
      Field(n, 0) == a / 4 && Field(n, 1) == v1 && 0 <= v1 < 64 && Field(n, 2) == b % 16 * 4
  {
    hide Field;
    var v1 := a % 4 * 16 + b / 16;
    assert Bits24(a, b, 0) == Joined24(a / 4, v1, b % 16 * 4, 0);
    FieldsOf(a / 4, v1, b % 16 * 4, 0);
  }

  lemma TailFields(rest: seq<Byte>)
    requires |rest| == 1 || |rest| == 2
    ensures |Tail(rest)| == 4
    ensures |rest| == 1 ==> GroupAt(Tail(rest), 0, Bits24(rest[0], 0, 0), 2)
    ensures |rest| == 2 ==> GroupAt(Tail(rest), 0, Bits24(rest[0], rest[1], 0), 3)
  {
    hide Letter, Field, Bits24;
    var a := rest[0];
    LetterIs(a / 4);
    if |rest| == 1 {
      OneByteFields(a);
      LetterIs(a % 4 * 16);
    } else {
      TwoByteFields(a, rest[1]);
      LetterIs(a % 4 * 16 + rest[1] / 16);
      LetterIs(rest[1] % 16 * 4);
    }
  }

  lemma {:induction false} QuadInGroups(src: seq<Byte>, n: nat, k: nat)
    requires 3 * n <= |src| && k < n
    ensures PlaceOf(k) + 4 <= |Groups(src, n)|
    ensures Groups(src, n)[PlaceOf(k)..PlaceOf(k) + 4] == Quad(src[3 * k], src[3 * k + 1], src[3 * k + 2])
  {
    hide Quad, Groups, LineEnd;
    MoreGroups(src, n);
    QuadSize(src[3 * k], src[3 * k + 1], src[3 * k + 2]);
    var before := Groups(src, n - 1);
    if k < n - 1 {
      QuadInGroups(src, n - 1, k);
      assert Groups(src, n)[PlaceOf(k)..PlaceOf(k) + 4] == before[PlaceOf(k)..PlaceOf(k) + 4];
    } else {
      assert |before| == PlaceOf(k);
    }
  }

  lemma TextSize(len: nat)
    ensures var symbols := 4 * ((len + 2) / 3);
      symbols + (symbols + 71) / 72 == 4 * ((len + 2) / 3) + len / 3 / 18 + if OpenLine(len) then 1 else 0
  {
    var n := len / 3;
    assert n == 18 * (n / 18) + n % 18;
    assert (len + 2) / 3 == if len % 3 == 0 then n else n + 1;
  }

  // A group found in one sequence is found where that sequence stands in another.
  lemma GroupInside(part: seq<Byte>, text: seq<Byte>, at: nat, n: int, symbols: int)
    requires GroupAt(part, 0, n, symbols) && |part| == 4 && at + 4 <= |text| && text[at..at + 4] == part
    ensures GroupAt(text, at, n, symbols)
  {
    hide Field;
    forall j | 0 <= j < 4
      ensures text[at + j] == part[j]
    {
      assert text[at..at + 4][j] == part[j];
    }
  }

  // What base64_encode writes is the Base64 text.
  lemma EncodedIsBase64(src: seq<Byte>)
    ensures IsBase64(Encoded(src), src)
  {
    hide Quad, Groups, Tail, OpenLine, GroupAt, Bits24;
    var n, text := |src| / 3, Encoded(src);
    var rest := src[3 * n..];
    EncodedParts(src, n);
    TailSize(rest);
    TextSize(|src|);
    forall k | 0 <= k < n
      ensures GroupAt(text, PlaceOf(k), Bits24(src[3 * k], src[3 * k + 1], src[3 * k + 2]), 4)
    {
      GroupOfText(src, text, n, k);
    }
    if rest != [] {
      TailFields(rest);
      assert text[PlaceOf(n)..PlaceOf(n) + 4] == Tail(rest);
      TailOfText(src, text, rest, n);
    }
    forall p | 0 <= p < |text|
      ensures text[p] == 10 <==> p % 73 == 72 || p == |text| - 1
    {
      Lines(src, p);
    }
  }

  lemma GroupOfText(src: seq<Byte>, text: seq<Byte>, n: nat, k: nat)
    requires n == |src| / 3 && text == Encoded(src) && k < n
    ensures GroupAt(text, PlaceOf(k), Bits24(src[3 * k], src[3 * k + 1], src[3 * k + 2]), 4)
  {
    hide Quad, Groups, Tail, OpenLine, Bits24, Field;
    var a, b, c := src[3 * k], src[3 * k + 1], src[3 * k + 2];
    EncodedParts(src, n);
    QuadInGroups(src, n, k);
    QuadFields(a, b, c);
    assert text[PlaceOf(k)..PlaceOf(k) + 4] == Groups(src, n)[PlaceOf(k)..PlaceOf(k) + 4];
    GroupInside(Quad(a, b, c), text, PlaceOf(k), Bits24(a, b, c), 4);
  }

  lemma TailOfText(src: seq<Byte>, text: seq<Byte>, rest: seq<Byte>, n: nat)
    requires n == |src| / 3 && rest == src[3 * n..] && rest != []
    requires PlaceOf(n) + 4 <= |text| && text[PlaceOf(n)..PlaceOf(n) + 4] == Tail(rest)
    ensures |rest| == 1 ==> GroupAt(text, PlaceOf(n), Bits24(src[3 * n], 0, 0), 2)
    ensures |rest| == 2 ==> GroupAt(text, PlaceOf(n), Bits24(src[3 * n], src[3 * n + 1], 0), 3)
  {
    hide Tail, GroupAt, Bits24;
    TailFields(rest);
    if |rest| == 1 {
      GroupInside(Tail(rest), text, PlaceOf(n), Bits24(rest[0], 0, 0), 2);
    } else {
      GroupInside(Tail(rest), text, PlaceOf(n), Bits24(rest[0], rest[1], 0), 3);
    }
  }

  // ---------------------------------------------------------------- what the decoder makes of a text

  // dtable: a symbol's place in the alphabet, 0 for padding, 0x80 for everything else.
  lemma ValueIs(c: Byte)
    ensures Value(c) == 128 <==> c != '=' as int && forall v :: 0 <= v < 64 ==> ALPHABET[v] as int != c
    ensures forall v :: 0 <= v < 64 ==> ALPHABET[v] as int < 256 && Value(ALPHABET[v] as int) == v
    ensures Value('=' as int) == 0
  {
    hide Letter, Code;
    forall v | 0 <= v < 64
      ensures ALPHABET[v] as int < 256 && Value(ALPHABET[v] as int) == v
    {
      LetterIs(v);
      CodeOfLetter(v);
    }
    if Value(c) != 128 && c != PAD { LetterIs(Code(c)); }
  }

  // Four symbols hold three bytes.
  lemma TripleIs(v0: int, v1: int, v2: int, v3: int)
    requires 0 <= v0 < 64 && 0 <= v1 < 64 && 0 <= v2 < 64 && 0 <= v3 < 64
    ensures forall j :: 0 <= j < 3 ==> Triple(v0, v1, v2, v3)[j] == ByteAt24(Joined24(v0, v1, v2, v3), j)
  {
    UpperBytes(v0, v1, v2, v3);
    LowerByte(v0, v1, v2, v3);
    hide Joined24;
  }

  lemma UpperBytes(v0: int, v1: int, v2: int, v3: int)
    requires 0 <= v0 < 64 && 0 <= v1 < 64 && 0 <= v2 < 64 && 0 <= v3 < 64
    ensures Joined24(v0, v1, v2, v3) / 65536 == v0 * 4 + v1 / 16
    ensures Joined24(v0, v1, v2, v3) / 256 == 1024 * v0 + 16 * v1 + v2 / 4
    ensures (Joined24(v0, v1, v2, v3) / 256) % 256 == (v1 * 16 + v2 / 4) % 256
  {
    var n := Joined24(v0, v1, v2, v3);
    QuotientUnique(n, 65536, 4 * v0 + v1 / 16, 4096 * (v1 % 16) + 64 * v2 + v3);
    QuotientUnique(n, 256, 1024 * v0 + 16 * v1 + v2 / 4, 64 * (v2 % 4) + v3);
    MoreMultiples(v1 * 16 + v2 / 4, 4 * v0);
  }

  lemma LowerByte(v0: int, v1: int, v2: int, v3: int)
    requires 0 <= v2 < 64 && 0 <= v3 < 64
    ensures Joined24(v0, v1, v2, v3) % 256 == (v2 * 64 + v3) % 256
  {
    MoreMultiples(v2 * 64 + v3, 1024 * v0 + 16 * v1);
  }

  lemma MoreMultiples(x: int, k: int)
    ensures (x + k * 256) % 256 == x % 256
  {
    QuotientUnique(x + k * 256, 256, x / 256 + k, x % 256);
  }

  function GroupValue(f: seq<Byte>, k: nat): int
    requires 4 * k + 4 <= |f|
  {
    Joined24(Value(f[4 * k]), Value(f[4 * k + 1]), Value(f[4 * k + 2]), Value(f[4 * k + 3]))
  }

  // Group m is the first with padding, or there is none.
  ghost predicate FirstPadded(f: seq<Byte>, m: nat) {
    && 4 * m <= |f|
    && (forall j :: 0 <= j < 4 * m ==> f[j] != PAD)
    && (4 * m + 4 <= |f| ==> Pads(f[4 * m..4 * m + 4]) > 0)
  }

  // The bytes of the first groups, as many as there are in r.
  ghost predicate BytesOf(f: seq<Byte>, r: seq<Byte>) {
    |r| <= |f| / 4 * 3 && forall k :: 0 <= k < |r| ==> r[k] == ByteAt24(GroupValue(f, k / 3), k % 3)
  }

  // What is kept of a text: its symbols and padding, in order.
  lemma KeptIs(s: seq<Byte>, c: Byte)
    ensures Kept([]) == []
    ensures Kept(s + [c]) == Kept(s) +
      if c == '=' as int || exists v :: 0 <= v < 64 && ALPHABET[v] as int == c then [c] else []
  {
    hide Value;
    assert (s + [c])[..|s|] == s;
    ValueIs(c);
  }

  // The bytes a text stands for: those of its groups up to the first with padding, less one byte for each padding
  // character in that one. There are none if nothing is kept, if what is kept is not whole groups, or if that group has
  // more than two padding characters.
  ghost predicate Decodes(f: seq<Byte>, m: nat, d: Option<seq<Byte>>)
    requires FirstPadded(f, m)
  {
    var pads := if 4 * m + 4 <= |f| then Pads(f[4 * m..4 * m + 4]) else 0;
    if |f| == 0 || |f| % 4 != 0 || pads > 2 then d == None
    else d.Some? && |d.value| == (if pads == 0 then 3 * m else 3 * m + 3 - pads) && BytesOf(f, d.value)
  }

  lemma GroupBytes(f: seq<Byte>, k: nat)
    requires 4 * k + 4 <= |f| && forall j :: 0 <= j < |f| ==> Value(f[j]) != 128
    ensures forall j :: 0 <= j < 3 ==> TripleAt(f, 4 * k)[j] == ByteAt24(GroupValue(f, k), j)
  {
    hide Value, Triple, Joined24, ByteAt24;
    TripleIs(Value(f[4 * k]), Value(f[4 * k + 1]), Value(f[4 * k + 2]), Value(f[4 * k + 3]));
  }

  lemma {:induction false} DecodedGroupsAre(f: seq<Byte>, m: nat)
    requires FirstPadded(f, m) && |f| > 0 && |f| % 4 == 0 && forall j :: 0 <= j < |f| ==> Value(f[j]) != 128
    ensures Decodes(f, m, DecodedGroups(f))
  {
    hide Value, TripleAt, Pads, GroupValue, ByteAt24;
    GroupBytes(f, 0);
    if m > 0 {
      NoPadsIn(f[..4]);
      var g := f[4..];
      if g == [] {
        assert DecodedGroups(g) == Some([]);
        FirstBytes(f, TripleAt(f, 0));
        assert TripleAt(f, 0) + [] == TripleAt(f, 0);
      } else {
        if 4 * m + 4 <= |f| { assert g[4 * (m - 1)..4 * (m - 1) + 4] == f[4 * m..4 * m + 4]; }
        DecodedGroupsAre(g, m - 1);
        if DecodedGroups(g).Some? { MoreBytes(f, DecodedGroups(g).value); }
      }
    } else {
      assert f[4 * 0..4 * 0 + 4] == f[..4];
      if Pads(f[..4]) <= 2 { FirstBytes(f, TripleAt(f, 0)[..3 - Pads(f[..4])]); }
    }
  }

  lemma FirstBytes(f: seq<Byte>, r: seq<Byte>)
    requires 4 <= |f| && |r| <= 3 && r == TripleAt(f, 0)[..|r|]
    requires forall j :: 0 <= j < 3 ==> TripleAt(f, 0)[j] == ByteAt24(GroupValue(f, 0), j)
    ensures BytesOf(f, r)
  {
    hide TripleAt, GroupValue, ByteAt24;
  }

  lemma MoreBytes(f: seq<Byte>, r: seq<Byte>)
    requires 4 <= |f| && BytesOf(f[4..], r)
    requires forall j :: 0 <= j < 3 ==> TripleAt(f, 0)[j] == ByteAt24(GroupValue(f, 0), j)
    ensures BytesOf(f, TripleAt(f, 0) + r)
  {
    hide TripleAt, ByteAt24, Joined24, Value;
    var b := TripleAt(f, 0) + r;
    forall k | 0 <= k < |b|
      ensures b[k] == ByteAt24(GroupValue(f, k / 3), k % 3)
    {
      if k >= 3 {
        assert (k - 3) / 3 == k / 3 - 1 && (k - 3) % 3 == k % 3;
        assert GroupValue(f[4..], k / 3 - 1) == GroupValue(f, k / 3);
      }
    }
  }

  // What base64_decode makes of any text.
  lemma DecodedIs(text: seq<Byte>, m: nat)
    requires FirstPadded(Kept(text), m)
    ensures Decodes(Kept(text), m, Decoded(text))
  {
    hide FirstPadded, DecodedGroups, Value;
    KeptValues(text);
    var f := Kept(text);
    if |f| > 0 && |f| % 4 == 0 { DecodedGroupsAre(f, m); }
  }

  lemma {:induction false} KeptValues(s: seq<Byte>)
    ensures forall j :: 0 <= j < |Kept(s)| ==> Value(Kept(s)[j]) != 128
  {
    hide Value;
    if s != [] { KeptValues(s[..|s| - 1]); }
  }

  // There is such a group for every text of whole groups.
  lemma FirstPaddedGroup(f: seq<Byte>) returns (m: nat)
    ensures FirstPadded(f, m)
  {
    hide Pads;
    m := 0;
    while 4 * m + 4 <= |f| && Pads(f[4 * m..4 * m + 4]) == 0
      invariant 4 * m <= |f| && forall j :: 0 <= j < 4 * m ==> f[j] != PAD
    {
      NoPadsMeans(f[4 * m..4 * m + 4]);
      forall j | 4 * m <= j < 4 * m + 4
        ensures f[j] != PAD
      {
        assert f[4 * m..4 * m + 4][j - 4 * m] == f[j];
      }
      m := m + 1;
    }
  }

  lemma {:induction false} NoPadsMeans(s: seq<Byte>)
    requires Pads(s) == 0
    ensures forall k :: 0 <= k < |s| ==> s[k] != PAD
  {
    if s != [] { NoPadsMeans(s[..|s| - 1]); }
  }
}

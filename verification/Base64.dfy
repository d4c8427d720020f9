/** base64_encode and base64_decode of app/base64.c on buffers; sizes are 32-bit words. */
module Base64 {
  import opened Base64Spec

  const W32 := 0x1_0000_0000

  // ---------------------------------------------------------------- the size computation

  // The number of bytes asked for, every operation modulo 2^32.
  function OutputSize(len: nat): nat {
    var size := Word(Word(len * 4) / 3 + 4);
    var withLines := Word(size + size / 72);
    Word(withLines + 1)
  }

  function Word(x: nat): (w: nat)
    ensures w < W32 && (x < W32 ==> w == x)
  {
    x % W32
  }

  function EncodedSize(len: nat): nat {
    4 * ((len + 2) / 3) + len / 3 / 18 + if OpenLine(len) then 1 else 0
  }

  lemma SizeOfEncoded(src: seq<Byte>)
    ensures |Encoded(src)| == EncodedSize(|src|)
  {
    hide Quad;
    TailSize(src[3 * (|src| / 3)..]);
  }

  // The check for overflow fires exactly when four times the length does not fit a word; if it does not fire, the
  // text and its terminator fit the buffer.
  lemma OverflowCheckIsExact(len: nat)
    requires len < W32
    ensures OutputSize(len) < len <==> 4 * len >= W32
    ensures 4 * len < W32 ==> EncodedSize(len) + 1 <= OutputSize(len)
  {
    if 4 * len < W32 {
      SizeSuffices(len, len / 3);
    } else {
      WrappedSize(len, Word(len * 4));
    }
  }

  lemma SizeSuffices(len: nat, n: nat)
    requires 4 * len < W32 && n == len / 3
    ensures OutputSize(len) == 4 * len / 3 + 5 + (4 * len / 3 + 4) / 72
    ensures EncodedSize(len) + 1 <= OutputSize(len)
  {
    NoWrapInSize(len);
    hide OutputSize;
    if len == 3 * n {
      Remainder0(n);
    } else if len == 3 * n + 1 {
      Remainder1(n);
    } else {
      assert len == 3 * n + 2;
      Remainder2(n);
    }
  }

  lemma NoWrapInSize(len: nat)
    requires 4 * len < W32
    ensures OutputSize(len) == 4 * len / 3 + 5 + (4 * len / 3 + 4) / 72
  {
    hide Word;
    var size := 4 * len / 3 + 4;
    assert 3 * (4 * len / 3) <= 4 * len && 72 * (size / 72) <= size;
    assert size + size / 72 + 1 < W32;
  }

  lemma Remainder0(n: nat)
    ensures 4 * (3 * n) / 3 == 4 * n && EncodedSize(3 * n) <= 4 * n + n / 18 + 1 && n / 18 <= (4 * n + 4) / 72
  {}

  lemma Remainder1(n: nat)
    ensures 4 * (3 * n + 1) / 3 == 4 * n + 1 && EncodedSize(3 * n + 1) == 4 * n + n / 18 + 5
    ensures n / 18 <= (4 * n + 5) / 72
  {}

  lemma Remainder2(n: nat)
    ensures 4 * (3 * n + 2) / 3 == 4 * n + 2 && EncodedSize(3 * n + 2) == 4 * n + n / 18 + 5
    ensures n / 18 <= (4 * n + 6) / 72
  {}

  lemma WrappedSize(len: nat, x: nat)
    requires len < W32 <= 4 * len && x == Word(len * 4)
    ensures OutputSize(len) < len
  {
    assert x <= 4 * len - W32;
    hide Word;
    var size := x / 3 + 4;
    assert 3 * (x / 3) <= x && 72 * (size / 72) <= size;
    assert size < W32 && size + size / 72 + 1 < W32;
  }

  // Text and terminator fill the buffer exactly for one byte past a whole group, unless those four characters
  // complete the line of 72.
  lemma SizeIsTight(len: nat)
    requires 4 * len < W32
    ensures EncodedSize(len) + 1 == OutputSize(len) <==> len % 3 == 1 && len / 3 % 18 != 17
  {
    NoWrapInSize(len);
    hide OutputSize;
    var n := len / 3;
    if len == 3 * n {
      Remainder0(n);
    } else if len == 3 * n + 1 {
      Remainder1(n);
      LineFeeds(n);
    } else {
      assert len == 3 * n + 2;
      Remainder2(n);
    }
  }

  lemma LineFeeds(n: nat)
    ensures (4 * n + 5) / 72 == if n % 18 == 17 then n / 18 + 1 else n / 18
  {
    assert n == 18 * (n / 18) + n % 18;
  }

  // ---------------------------------------------------------------- base64_encode

  // Storing a few bytes behind a prefix of the buffer.
  lemma PrefixAfter(before: seq<Byte>, after: seq<Byte>, pos: nat, s: seq<Byte>)
    requires |after| == |before| && pos + |s| <= |before| && after[..pos] == before[..pos]
    requires forall k :: 0 <= k < |s| ==> after[pos + k] == s[k]
    ensures after[..pos + |s|] == before[..pos] + s
  {}

  // The four characters of a whole group.
  method StoreGroup(a: Byte, b: Byte, c: Byte, out: array<Byte>, pos: nat)
    requires pos + 4 <= out.Length
    modifies out
    ensures out[..pos + 4] == old(out[..pos]) + Quad(a, b, c)
  {
    hide Letter;
    ghost var before := out[..];
    out[pos] := Letter(a / 4);
    out[pos + 1] := Letter(a % 4 * 16 + b / 16);
    out[pos + 2] := Letter(b % 16 * 4 + c / 64);
    out[pos + 3] := Letter(c % 64);
    PrefixAfter(before, out[..], pos, Quad(a, b, c));
  }

  // The loop over whole groups. Room is left for the last group, the last line feed and the terminator.
  method EncodeGroups(src: array<Byte>, out: array<Byte>) returns (pos: nat, n: nat, lineLen: nat)
    requires src != out && EncodedSize(src.Length) + 1 <= out.Length
    modifies out
    ensures n == src.Length / 3 && pos == 4 * n + n / 18 && lineLen == 4 * (n % 18)
    ensures pos <= out.Length && out[..pos] == Groups(src[..], n)
  {
    hide Quad, Groups, LineEnd, OpenLine;
    ghost var s := src[..];
    var i := 0;
    pos, n, lineLen := 0, 0, 0;
    MoreGroups(s, 0);
    while src.Length - i >= 3
      invariant i == 3 * n <= src.Length && pos == 4 * n + n / 18 && lineLen == 4 * (n % 18)
      invariant pos <= out.Length && out[..pos] == Groups(s, n) && src[..] == s
    {
      RoomForGroup(src.Length, n);
      MoreGroups(s, n + 1);
      StoreGroup(src[i], src[i + 1], src[i + 2], out, pos);
      pos := pos + 4;
      i := i + 3;
      lineLen := lineLen + 4;
      n := n + 1;
      pos, lineLen := EndLine(out, pos, lineLen, n);
    }
  }

  // if (line_len >= 72)
  method EndLine(out: array<Byte>, pos0: nat, lineLen0: nat, ghost n: nat) returns (pos: nat, lineLen: nat)
    requires n > 0 && lineLen0 == 4 * ((n - 1) % 18) + 4 && pos0 + (if n % 18 == 0 then 1 else 0) <= out.Length
    modifies out
    ensures pos == pos0 + (if n % 18 == 0 then 1 else 0) && lineLen == 4 * (n % 18)
    ensures out[..pos] == old(out[..pos0]) + LineEnd(n % 18 == 0)
  {
    pos, lineLen := pos0, lineLen0;
    if lineLen >= 72 {
      out[pos] := LF;
      pos := pos + 1;
      lineLen := 0;
    }
  }

  lemma RoomForGroup(len: nat, n: nat)
    requires 3 * n + 3 <= len
    ensures 4 * (n + 1) + (n + 1) / 18 < EncodedSize(len) + 1
    ensures (n + 1) / 18 == n / 18 + if (n + 1) % 18 == 0 then 1 else 0
  {}

  // The last group, of one or two bytes.
  method StoreTail(src: array<Byte>, i: nat, out: array<Byte>, pos: nat)
    requires src != out && i < src.Length < i + 3 && pos + 4 <= out.Length
    modifies out
    ensures out[..pos + 4] == old(out[..pos]) + Tail(src[i..])
  {
    hide Letter;
    ghost var before := out[..];
    out[pos] := Letter(src[i] / 4);
    if src.Length - i == 1 {
      out[pos + 1] := Letter(src[i] % 4 * 16);
      out[pos + 2] := PAD;
    } else {
      out[pos + 1] := Letter(src[i] % 4 * 16 + src[i + 1] / 16);
      out[pos + 2] := Letter(src[i + 1] % 16 * 4);
    }
    out[pos + 3] := PAD;
    PrefixAfter(before, out[..], pos, Tail(src[i..]));
  }

  // What is left after the whole groups, the last line feed and the terminator.
  method EncodeTail(src: array<Byte>, n: nat, out: array<Byte>, pos0: nat, lineLen0: nat) returns (pos: nat)
    requires src != out && n == src.Length / 3 && pos0 == 4 * n + n / 18 && lineLen0 == 4 * (n % 18)
    requires EncodedSize(src.Length) + 1 <= out.Length && out[..pos0] == Groups(src[..], n)
    modifies out
    ensures pos < out.Length && out[..pos] == Encoded(src[..]) && out[pos] == 0
  {
    hide Groups, Tail;
    var i, lineLen := 3 * n, lineLen0;
    pos := pos0;
    ghost var s := src[..];
    TailSize(s[3 * n..]);
    assert src[i..] == s[3 * n..];
    if src.Length - i != 0 {
      StoreTail(src, i, out, pos);
      pos := pos + 4;
      lineLen := lineLen + 4;
    }
    if lineLen != 0 {
      out[pos] := LF;
      pos := pos + 1;
    }
    out[pos] := 0;
  }

  // memory says whether malloc succeeds; null stands for NULL.
  method Encode(src: array<Byte>, memory: bool) returns (out: array?<Byte>, outLen: nat)
    requires src.Length < W32
    ensures out == null <==> 4 * src.Length >= W32 || !memory
    ensures out != null ==> fresh(out) && outLen < out.Length == OutputSize(src.Length)
    ensures out != null ==> out[..outLen] == Encoded(src[..]) && out[outLen] == 0
    ensures out != null ==> IsBase64(out[..outLen], src[..])
  {
    EncodedIsBase64(src[..]);
    hide IsBase64, Quad, Groups, Tail, OutputSize, EncodedSize, OpenLine, Encoded;
    var len := src.Length;
    var olen := OutputSize(len);
    OverflowCheckIsExact(len);
    if olen < len || !memory {
      return null, 0;
    }
    var buf := new Byte[olen];
    var pos, n, lineLen := EncodeGroups(src, buf);
    pos := EncodeTail(src, n, buf, pos, lineLen);
    return buf, pos;
  }

  // ---------------------------------------------------------------- base64_decode

  method BuildTable() returns (dtable: array<int>)
    ensures fresh(dtable) && dtable.Length == 256
    ensures forall c: Byte :: dtable[c] == Value(c)
    ensures forall v :: 0 <= v < 64 ==> dtable[ALPHABET[v] as int] == v
  {
    ValueIs(PAD);
    hide Letter, Code;
    dtable := new int[256](_ => 0x80);
    var i := 0;
    while i < 64
      invariant 0 <= i <= 64
      invariant forall c: Byte :: dtable[c] == if Code(c) < i then Code(c) else 0x80
    {
      CodeOfLetter(i);
      dtable[Letter(i)] := i;
      i := i + 1;
    }
    dtable[PAD] := 0;
  }

  lemma KeptNext(s: seq<Byte>, i: nat)
    requires i < |s|
    ensures Kept(s[..i + 1]) == Kept(s[..i]) + if Value(s[i]) != 128 then [s[i]] else []
    ensures Kept(s[..0]) == [] && Kept(s[..|s|]) == Kept(s)
  {
    assert s[..i + 1][..i] == s[..i] && s[..|s|] == s;
  }

  lemma KeptPrefix(s: seq<Byte>, i: nat)
    requires i <= |s|
    ensures Kept(s[..i]) <= Kept(s)
  {
    assert s == s[..i] + s[i..];
    KeptAppend(s[..i], s[i..]);
  }

  // The first loop.
  method CountKept(src: array<Byte>, len: nat, dtable: array<int>) returns (count: nat)
    requires len <= src.Length && dtable.Length == 256 && forall c: Byte :: dtable[c] == Value(c)
    ensures count == |Kept(src[..len])|
  {
    hide Kept, Value;
    count := 0;
    var i := 0;
    ghost var s := src[..len];
    KeptOfNothing(s);
    while i < len
      invariant 0 <= i <= len && count == |Kept(s[..i])|
    {
      KeptNext(s, i);
      if dtable[src[i]] != 0x80 {
        count := count + 1;
      }
      i := i + 1;
    }
  }

  lemma KeptOfNothing(s: seq<Byte>)
    ensures Kept(s[..0]) == [] && Kept(s[..|s|]) == Kept(s)
  {
    assert s[..|s|] == s;
  }

  // After i characters: q groups of four are decoded into bytes, count more characters of f are in the block.
  ghost predicate Decoding(s: seq<Byte>, i: nat, q: nat, bytes: seq<Byte>, block: seq<int>, count: nat, pad: nat) {
    var f := Kept(s);
    && |f| % 4 == 0 && i <= |s| && 4 * q + count <= |f| && count < 4 && |block| == 4 && |bytes| == 3 * q
    && Kept(s[..i]) == f[..4 * q + count]
    && (forall j :: 0 <= j < count ==> block[j] == Value(f[4 * q + j]))
    && pad == Pads(f[4 * q..4 * q + count])
    && DecodedGroups(f) == Prepended(bytes, DecodedGroups(f[4 * q..]))
  }

  lemma DecodingStarts(s: seq<Byte>, block: seq<int>)
    requires |Kept(s)| % 4 == 0 && |block| == 4
    ensures Decoding(s, 0, 0, [], block, 0, 0)
  {
    var f := Kept(s);
    KeptOfNothing(s);
    assert f[0..] == f;
    match DecodedGroups(f)
    case None =>
    case Some(r) => assert [] + r == r;
  }

  lemma DecodingSkips(s: seq<Byte>, i: nat, q: nat, bytes: seq<Byte>, block: seq<int>, count: nat, pad: nat)
    requires Decoding(s, i, q, bytes, block, count, pad) && i < |s| && Value(s[i]) == 128
    ensures Decoding(s, i + 1, q, bytes, block, count, pad)
  {
    hide Kept, DecodedGroups, Pads, Value;
    KeptNext(s, i);
  }

  // The next character kept is the next of f.
  lemma NextKept(s: seq<Byte>, i: nat, n: nat)
    requires i < |s| && Value(s[i]) != 128 && n <= |Kept(s)| && Kept(s[..i]) == Kept(s)[..n]
    ensures n < |Kept(s)| && Kept(s)[n] == s[i] && Kept(s[..i + 1]) == Kept(s)[..n + 1]
  {
    hide Kept, Value;
    KeptNext(s, i);
    KeptPrefix(s, i + 1);
    assert Kept(s[..i + 1])[n] == s[i];
  }

  lemma OneMorePad(f: seq<Byte>, m: nat, n: nat)
    requires m <= n < |f|
    ensures Pads(f[m..n + 1]) == Pads(f[m..n]) + One(f[n])
  {
    var p := f[m..n + 1];
    assert p[..|p| - 1] == f[m..n] && p[|p| - 1] == f[n];
  }

  // One more character in the block.
  lemma DecodingTakes(s: seq<Byte>, i: nat, q: nat, bytes: seq<Byte>, block: seq<int>, count: nat, pad: nat)
    requires Decoding(s, i, q, bytes, block, count, pad) && i < |s| && Value(s[i]) != 128
    ensures 4 * q + count < |Kept(s)| && Kept(s)[4 * q + count] == s[i]
    ensures Kept(s[..i + 1]) == Kept(s)[..4 * q + count + 1]
    ensures Pads(Kept(s)[4 * q..4 * q + count + 1]) == pad + One(s[i])
    ensures count < 3 ==>
      Decoding(s, i + 1, q, bytes, block[count := Value(s[i])], count + 1, pad + One(s[i]))
  {
    hide Kept, DecodedGroups, Value, Pads, One;
    NextKept(s, i, 4 * q + count);
    OneMorePad(Kept(s), 4 * q, 4 * q + count);
  }

  // A full block: what is stored for it, by the number of pads in it.
  lemma DecodingGroup(s: seq<Byte>, i: nat, q: nat, bytes: seq<Byte>, block: seq<int>, pad: nat, block': seq<int>)
    requires Decoding(s, i, q, bytes, block, 3, pad) && i < |s| && Value(s[i]) != 128
    requires block' == block[3 := Value(s[i])]
    ensures var triple := Triple(block'[0], block'[1], block'[2], block'[3]); var pads := pad + One(s[i]);
      && (pads == 0 ==> Decoding(s, i + 1, q + 1, bytes + triple, block', 0, 0))
      && (1 <= pads <= 2 ==> DecodedGroups(Kept(s)) == Some(bytes + triple[..3 - pads]))
      && (pads > 2 ==> DecodedGroups(Kept(s)) == None)
  {
    hide Kept, Value, Triple, Pads, One, DecodedGroups, Prepended, Decoding;
    DecodingTakes(s, i, q, bytes, block, 3, pad);
    BlockIsGroup(s, i, q, bytes, block, pad, block');
    var triple := Triple(block'[0], block'[1], block'[2], block'[3]);
    GroupDone(Kept(s), q, bytes, triple, pad + One(s[i]));
    if pad + One(s[i]) == 0 { NextBlock(s, i, q, bytes, block, pad, block'); }
  }

  lemma BlockIsGroup(s: seq<Byte>, i: nat, q: nat, bytes: seq<Byte>, block: seq<int>, pad: nat, block': seq<int>)
    requires Decoding(s, i, q, bytes, block, 3, pad) && i < |s| && Value(s[i]) != 128
    requires block' == block[3 := Value(s[i])]
    ensures 4 * q + 4 <= |Kept(s)| && |block'| == 4
    ensures TripleAt(Kept(s), 4 * q) == Triple(block'[0], block'[1], block'[2], block'[3])
    ensures DecodedGroups(Kept(s)) == Prepended(bytes, DecodedGroups(Kept(s)[4 * q..]))
  {
    hide Kept, Value, Triple, Pads, DecodedGroups, Prepended;
    NextKept(s, i, 4 * q + 3);
  }

  lemma NextBlock(s: seq<Byte>, i: nat, q: nat, bytes: seq<Byte>, block: seq<int>, pad: nat, block': seq<int>)
    requires Decoding(s, i, q, bytes, block, 3, pad) && i < |s| && Value(s[i]) != 128
    requires block' == block[3 := Value(s[i])]
    requires var triple := Triple(block'[0], block'[1], block'[2], block'[3]);
      4 * (q + 1) <= |Kept(s)| &&
      DecodedGroups(Kept(s)) == Prepended(bytes + triple, DecodedGroups(Kept(s)[4 * (q + 1)..]))
    ensures Decoding(s, i + 1, q + 1, bytes + Triple(block'[0], block'[1], block'[2], block'[3]), block', 0, 0)
  {
    hide Kept, Value, Triple, Pads, DecodedGroups, Prepended;
    NextKept(s, i, 4 * q + 3);
    NoPadsInNothing(Kept(s)[4 * (q + 1)..4 * (q + 1) + 0]);
  }

  lemma GroupDone(f: seq<Byte>, q: nat, bytes: seq<Byte>, triple: seq<Byte>, pads: nat)
    requires 4 * q + 4 <= |f| && triple == TripleAt(f, 4 * q) && pads == Pads(f[4 * q..4 * q + 4])
    requires DecodedGroups(f) == Prepended(bytes, DecodedGroups(f[4 * q..]))
    ensures pads == 0 ==> DecodedGroups(f) == Prepended(bytes + triple, DecodedGroups(f[4 * (q + 1)..]))
    ensures 1 <= pads <= 2 ==> DecodedGroups(f) == Some(bytes + triple[..3 - pads])
    ensures pads > 2 ==> DecodedGroups(f) == None
  {
    hide TripleAt, Pads, DecodedGroups;
    var g := f[4 * q..];
    SuffixGroup(f, 4 * q);
    FirstOf(g);
    PrependTwice(bytes, triple, DecodedGroups(g[4..]));
  }

  lemma SuffixGroup(f: seq<Byte>, k: nat)
    requires k + 4 <= |f|
    ensures f[k..][..4] == f[k..k + 4] && f[k..][4..] == f[k + 4..] && TripleAt(f[k..], 0) == TripleAt(f, k)
  {
    hide Value, Triple;
  }

  lemma FirstOf(g: seq<Byte>)
    requires 4 <= |g|
    ensures DecodedGroups(g) ==
      var pad := Pads(g[..4]);
      if pad == 0 then Prepended(TripleAt(g, 0), DecodedGroups(g[4..]))
      else if pad <= 2 then Some(TripleAt(g, 0)[..3 - pad])
      else None
  {
    hide Pads, TripleAt, Prepended;
  }

  lemma NoPadsInNothing(s: seq<Byte>)
    requires s == []
    ensures Pads(s) == 0
  {}

  lemma PrependTwice(a: seq<Byte>, b: seq<Byte>, rest: Option<seq<Byte>>)
    ensures Prepended(a, Prepended(b, rest)) == Prepended(a + b, rest)
  {
    match rest
    case None =>
    case Some(r) => assert a + (b + r) == (a + b) + r;
  }

  lemma DecodingEnds(s: seq<Byte>, q: nat, bytes: seq<Byte>, block: seq<int>, count: nat, pad: nat)
    requires Decoding(s, |s|, q, bytes, block, count, pad)
    ensures DecodedGroups(Kept(s)) == Some(bytes)
  {
    hide Kept, Pads, Value, DecodedGroups, Decoding;
    DecodingCount(s, q, bytes, block, count, pad);
    NothingLeft(Kept(s), 4 * q);
    NothingToDecode();
    assert bytes + [] == bytes;
  }

  lemma DecodingCount(s: seq<Byte>, q: nat, bytes: seq<Byte>, block: seq<int>, count: nat, pad: nat)
    requires Decoding(s, |s|, q, bytes, block, count, pad)
    ensures |Kept(s)| == 4 * q && DecodedGroups(Kept(s)) == Prepended(bytes, DecodedGroups(Kept(s)[4 * q..]))
  {
    hide Kept, Pads, Value, DecodedGroups, Prepended;
    KeptOfNothing(s);
    assert |Kept(s)| == 4 * q + count;
    WholeGroups(q, count);
  }

  lemma WholeGroups(q: nat, count: nat)
    requires count < 4
    ensures (4 * q + count) % 4 == count
  {}

  lemma NothingLeft(f: seq<Byte>, n: nat)
    requires |f| == n
    ensures f[n..] == []
  {}

  lemma NothingToDecode()
    ensures DecodedGroups([]) == Some([])
  {}

  // The three stores; a byte keeps the low eight bits.
  method StoreTriple(block: array<int>, out: array<Byte>, pos: nat)
    requires block.Length == 4 && pos + 3 <= out.Length
    modifies out
    ensures out[..pos + 3] == old(out[..pos]) + Triple(block[0], block[1], block[2], block[3])
  {
    ghost var before := out[..];
    out[pos] := (block[0] * 4 + block[1] / 16) % 256;
    out[pos + 1] := (block[1] * 16 + block[2] / 4) % 256;
    out[pos + 2] := (block[2] * 64 + block[3]) % 256;
    PrefixAfter(before, out[..], pos, Triple(block[0], block[1], block[2], block[3]));
  }

  // The second loop; false for invalid padding.
  method DecodeGroups(src: array<Byte>, len: nat, dtable: array<int>, out: array<Byte>) returns (ok: bool, pos: nat)
    requires len <= src.Length && dtable.Length == 256 && src != out && forall c: Byte :: dtable[c] == Value(c)
    requires |Kept(src[..len])| % 4 == 0 && out.Length == |Kept(src[..len])| / 4 * 3
    modifies out
    ensures pos <= out.Length
    ensures DecodedGroups(Kept(old(src[..len]))) == if ok then Some(out[..pos]) else None
  {
    hide Kept, DecodedGroups, Value, Triple, Pads, Decoding;
    ghost var s := src[..len];
    var block := new int[4];
    var i, count, pad: nat := 0, 0, 0;
    ghost var q: nat := 0;
    pos := 0;
    DecodingStarts(s, block[..]);
    while i < len
      invariant 0 <= i <= len && 0 <= count < 4 && src[..len] == s && block.Length == 4
      invariant pos == 3 * q && pos <= out.Length
      invariant Decoding(s, i, q, out[..pos], block[..], count, pad)
    {
      var tmp := dtable[src[i]];
      if tmp == 0x80 {
        DecodingSkips(s, i, q, out[..pos], block[..], count, pad);
        i := i + 1;
        continue;
      }
      ghost var block0, pad0 := block[..], pad;
      DecodingTakes(s, i, q, out[..pos], block0, count, pad0);
      if src[i] == PAD { pad := pad + 1; }
      block[count] := tmp;
      assert block[..] == block0[count := tmp];
      count := count + 1;
      if count == 4 {
        RoomForTriple(s, i, q, out[..pos], block0, pad0);
        DecodingGroup(s, i, q, out[..pos], block0, pad0, block[..]);
        ghost var bytes := out[..pos];
        StoreTriple(block, out, pos);
        pos := pos + 3;
        ghost var all := out[..pos];
        count := 0;
        if pad != 0 {
          if pad == 1 {
            pos := pos - 1;
          } else if pad == 2 {
            pos := pos - 2;
          } else {
            return false, 0;
          }
          assert out[..pos] == all[..pos];
          TakeInto(bytes, Triple(block[0], block[1], block[2], block[3]), 3 - pad);
          return true, pos;
        }
        q := q + 1;
      }
      i := i + 1;
    }
    DecodingEnds(s, q, out[..pos], block[..], count, pad);
    return true, pos;
  }

  lemma TakeInto(a: seq<Byte>, b: seq<Byte>, k: nat)
    requires k <= |b|
    ensures (a + b)[..|a| + k] == a + b[..k]
  {}

  lemma RoomForTriple(s: seq<Byte>, i: nat, q: nat, bytes: seq<Byte>, block: seq<int>, pad: nat)
    requires Decoding(s, i, q, bytes, block, 3, pad) && i < |s| && Value(s[i]) != 128
    ensures 3 * q + 3 <= |Kept(s)| / 4 * 3
  {
    DecodingTakes(s, i, q, bytes, block, 3, pad);
  }

  method Decode(src: array<Byte>, len: nat, memory: bool) returns (out: array?<Byte>, outLen: nat)
    requires len <= src.Length
    ensures out == null <==> Decoded(src[..len]) == None || !memory
    ensures out != null ==> fresh(out) && outLen <= out.Length == |Kept(src[..len])| / 4 * 3
    ensures out != null ==> Decoded(src[..len]) == Some(out[..outLen])
    ensures forall m: nat :: FirstPadded(Kept(src[..len]), m) ==> Decodes(Kept(src[..len]), m, Decoded(src[..len]))
  {
    forall m: nat | FirstPadded(Kept(src[..len]), m)
      ensures Decodes(Kept(src[..len]), m, Decoded(src[..len]))
    {
      DecodedIs(src[..len], m);
    }
    hide Kept, DecodedGroups, Value, FirstPadded, Decodes;
    var dtable := BuildTable();
    var count := CountKept(src, len, dtable);
    if count == 0 || count % 4 != 0 || !memory {
      return null, 0;
    }
    var buf := new Byte[count / 4 * 3];
    var ok, pos := DecodeGroups(src, len, dtable, buf);
    if !ok {
      return null, 0;
    }
    return buf, pos;
  }

  // The two calls of main, when there is memory: any text but the empty one comes back.
  method EncodeThenDecode(text: array<Byte>) returns (dbuf: array?<Byte>, len2: nat)
    requires 4 * text.Length < W32
    ensures dbuf == null <==> text.Length == 0
    ensures dbuf != null ==> len2 <= dbuf.Length && dbuf[..len2] == text[..]
  {
    hide Encoded, Decoded;
    var ebuf, len := Encode(text, true);
    RoundTrip(text[..]);
    dbuf, len2 := Decode(ebuf, len, true);
  }
}

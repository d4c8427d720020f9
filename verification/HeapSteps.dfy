/**
 The steps of malloc, free and heap_init on values: splitting a block, releasing one, initialising the heap,
 and a client storing into its block.
 */
module HeapSteps {
  import opened HeapModel
  import opened PowersOfTwo

  // ---------------------------------------------------------------- splitting

  // The size written into the split-off block is stale: whatever is cut off, it is always the same word.
  const STALE_SIZE: nat := WORD - HEADER

  // size | 1, and what line 45 computes from it in 32-bit words.
  function LowBitSet(size: nat): nat { if size % 2 == 1 then size else size + 1 }
  function SizeLeft(stored: nat, need: nat): nat { InWord(stored - stored % 2 - need - HEADER) }

  lemma SizeLeftIsStale(need: nat)
    requires need % 2 == 0
    ensures LowBitSet(need) == need + 1 && SizeLeft(LowBitSet(need), need) == STALE_SIZE
  {}

  lemma FourIsEven(x: nat)
    requires x % 4 == 0
    ensures x % 2 == 0
  {
    QuotientUnique(x, 2, 2 * (x / 4), 0);
  }

  function SplitMemory(base: nat, m: seq<nat>, q: nat, next: nat, need: nat): (m': seq<nat>)
    requires Holds(base, m, q) && Holds(base, m, q + HEADER + need)
    ensures |m'| == |m|
  {
    SetHeader(base, SetHeader(base, m, q, q + HEADER + need, need + 1), q + HEADER + need, next, STALE_SIZE)
  }

  function Inserted(hs: seq<nat>, i: nat, n: nat): seq<nat>
    requires i < |hs|
  {
    hs[..i + 1] + [n] + hs[i + 1..]
  }

  lemma InsertedAfter(hs: seq<nat>, i: nat, n: nat)
    requires i < |hs|
    ensures |Inserted(hs, i, n)| == |hs| + 1 && Inserted(hs, i, n)[i] == hs[i]
  {}

  // Cutting `need` bytes off the free block i puts exactly that block in use.
  lemma SplitKeepsTiling(base: nat, m: seq<nat>, hs: seq<nat>, i: nat, need: nat)
    requires Tiled(base, m, hs) && i < |hs| - 1 && !Used(base, m, hs[i])
    requires need % 4 == 0 && hs[i] + HEADER + need + HEADER <= hs[i + 1]
    ensures Holds(base, m, hs[i] + HEADER + need)
    ensures var m', hs' := SplitMemory(base, m, hs[i], hs[i + 1], need), Inserted(hs, i, hs[i] + HEADER + need);
      && Tiled(base, m', hs')
      && Live(base, m', hs') == Live(base, m, hs)[hs[i] := need]
      && SameLiveWords(base, m, m', Live(base, m, hs))
  {
    hide Index, Live, Next, Size, Used, Linked, SameHeader, SetHeader, SameLiveWords;
    var q, n := hs[i], hs[i] + HEADER + need;
    SplitHolds(base, m, hs, i, n);
    var m1 := SetHeader(base, m, q, n, need + 1);
    var m2 := SetHeader(base, m1, n, hs[i + 1], STALE_SIZE);
    SplitHeaders(base, m, hs, i, need);
    SplitIsTiled(base, m, hs, i, need, m2);
    SplitLive(base, m, hs, i, need, m2);
    FreeHeaderIsOutside(base, m, hs, i);
    SplitOutside(base, m, hs, i, n);
    LiveWordsKept(base, m, hs, q, n, need + 1, Live(base, m, hs));
    LiveWordsKept(base, m1, hs, n, hs[i + 1], STALE_SIZE, Live(base, m, hs));
    SameWordsTrans(base, m, m1, m2, Live(base, m, hs));
  }

  // Where line 41 puts the second header: inside the block, and on or next to its first one if the sum wraps.
  lemma SplitPlace(base: nat, m: seq<nat>, hs: seq<nat>, i: nat, need: nat)
    requires Tiled(base, m, hs) && i < |hs| - 1
    requires need < WORD && need % 4 == 0 && hs[i] + HEADER + InWord(need + HEADER) <= hs[i + 1]
    ensures var n := InWord(hs[i] + HEADER + need);
      && Holds(base, m, hs[i]) && Holds(base, m, n) && n + HEADER <= hs[i + 1]
      && n == if need + HEADER < WORD then hs[i] + HEADER + need else hs[i] + HEADER + need - WORD
  {
    hide Index, Next, Size, Linked, InWord;
    Apart(base, m, hs, i + 1, |hs| - 1);
    assert Holds(base, m, hs[i]);
    WrappedSum(hs[i], hs[i + 1], need);
    HoldsBetween(base, m, hs, i, InWord(hs[i] + HEADER + need));
  }

  lemma WrappedSum(q: nat, next: nat, need: nat)
    requires need < WORD && need % 4 == 0 && q + HEADER + InWord(need + HEADER) <= next <= WORD - HEADER && q % 4 == 0
    ensures var n := InWord(q + HEADER + need);
      && n == (if need + HEADER < WORD then q + HEADER + need else q + HEADER + need - WORD)
      && q <= n && n % 4 == 0 && n + HEADER <= next
  {}

  // If it wraps, the block is left unmarked, and nothing outside it changes.
  lemma WrappedSplit(base: nat, m: seq<nat>, hs: seq<nat>, i: nat, need: nat)
    requires Tiled(base, m, hs) && i < |hs| - 1 && !Used(base, m, hs[i])
    requires need < WORD <= need + HEADER && need % 4 == 0 && hs[i] + HEADER + need + HEADER - WORD <= hs[i + 1]
    requires Holds(base, m, hs[i]) && Holds(base, m, hs[i] + HEADER + need - WORD)
    ensures var n := hs[i] + HEADER + need - WORD;
      var m' := SetHeader(base, SetHeader(base, m, hs[i], n, need + 1), n, hs[i + 1], STALE_SIZE);
      && !Used(base, m', hs[i])
      && SameLiveWords(base, m, m', Live(base, m, hs))
  {
    hide Live, Linked, SameHeader, Index, SetHeader, SameLiveWords, Used;
    var q, n := hs[i], hs[i] + HEADER + need - WORD;
    var m1 := SetHeader(base, m, q, n, need + 1);
    assert Holds(base, m, hs[i + 1]);
    Unmarked(base, m1, q, n, hs[i + 1]);
    assert Holds(base, m1, n);
    hide Holds;
    FreeHeaderIsOutside(base, m, hs, i);
    SplitOutside(base, m, hs, i, n);
    LiveWordsKept(base, m, hs, q, n, need + 1, Live(base, m, hs));
    LiveWordsKept(base, m1, hs, n, hs[i + 1], STALE_SIZE, Live(base, m, hs));
    SameWordsTrans(base, m, m1, SetHeader(base, m1, n, hs[i + 1], STALE_SIZE), Live(base, m, hs));
  }

  // A free block can be given any even size.
  lemma FreeSizeKeepsTiling(base: nat, m: seq<nat>, hs: seq<nat>, i: nat, size: nat)
    requires Tiled(base, m, hs) && i < |hs| - 1 && !Used(base, m, hs[i]) && size % 2 == 0
    ensures Holds(base, m, hs[i])
    ensures var m' := SetHeader(base, m, hs[i], hs[i + 1], size);
      Tiled(base, m', hs) && Live(base, m', hs) == Live(base, m, hs)
  {
    hide Index, Live, Next, Size, SetHeader, SameHeader;
    var m' := SetHeader(base, m, hs[i], hs[i + 1], size);
    HeaderWritten(base, m, hs[i], hs[i + 1], size);
    OthersUnchanged(base, m, hs, i, hs[i + 1], size);
    assert Merged(hs, i, i + 1) == hs;
    MergedIsTiled(base, m, hs, i, i + 1, m');
    LiveAfterMerge(base, m, hs, i, i + 1, m');
  }

  // With a sum of 0 the second header overwrites the first: the request is forgotten.
  lemma ForgottenSplit(base: nat, m: seq<nat>, hs: seq<nat>, i: nat, need: nat)
    requires Tiled(base, m, hs) && i < |hs| - 1 && !Used(base, m, hs[i]) && need == WORD - HEADER
    ensures Holds(base, m, hs[i])
    ensures var m' := SetHeader(base, SetHeader(base, m, hs[i], hs[i], need + 1), hs[i], hs[i + 1], STALE_SIZE);
      Tiled(base, m', hs) && Live(base, m', hs) == Live(base, m, hs)
  {
    hide Live, Linked, SameHeader, Tiled;
    assert Holds(base, m, hs[i]) by { FreeSizeKeepsTiling(base, m, hs, i, STALE_SIZE); }
    assert SetHeader(base, SetHeader(base, m, hs[i], hs[i], need + 1), hs[i], hs[i + 1], STALE_SIZE)
        == SetHeader(base, m, hs[i], hs[i + 1], STALE_SIZE);
    FreeSizeKeepsTiling(base, m, hs, i, STALE_SIZE);
  }

  // With a sum of 4 it begins inside the first, which is left pointing at it.
  lemma OverlappingSplit(base: nat, m: seq<nat>, q: nat, next: nat, size: nat)
    requires Holds(base, m, q) && Holds(base, m, q + 4)
    ensures var m' := SetHeader(base, SetHeader(base, m, q, q + 4, size), q + 4, next, STALE_SIZE);
      Next(base, m', q) == q + 4 && Next(base, m', q + 4) == next
  {}

  lemma Unmarked(base: nat, m: seq<nat>, q: nat, n: nat, next: nat)
    requires Holds(base, m, q) && Holds(base, m, n) && (n == q || n == q + 4) && next % 4 == 0
    ensures !Used(base, SetHeader(base, m, n, next, STALE_SIZE), q)
  {}

  lemma SplitHolds(base: nat, m: seq<nat>, hs: seq<nat>, i: nat, n: nat)
    requires Spaced(base, m, hs) && i < |hs| - 1 && n % 4 == 0 && hs[i] + HEADER <= n && n + HEADER <= hs[i + 1]
    ensures Holds(base, m, n) && Spaced(base, m, Inserted(hs, i, n))
  {
    HoldsBetween(base, m, hs, i, n);
    hide Index, Holds;
    var hs' := Inserted(hs, i, n);
    assert hs'[0] == hs[0] && hs'[|hs'| - 1] == hs[|hs| - 1];
    forall j, k | 0 <= j < k < |hs'|
      ensures hs'[j] + HEADER <= hs'[k]
    {
      InsertedInOrder(hs, i, n, j, k);
    }
  }

  lemma InsertedInOrder(hs: seq<nat>, i: nat, n: nat, j: nat, k: nat)
    requires forall j, k :: 0 <= j < k < |hs| ==> hs[j] + HEADER <= hs[k]
    requires i < |hs| - 1 && hs[i] + HEADER <= n && n + HEADER <= hs[i + 1] && j < k <= |hs|
    ensures Inserted(hs, i, n)[j] + HEADER <= Inserted(hs, i, n)[k]
  {
    if k <= i {
    } else if j > i + 1 {
    } else if k == i + 1 {
      assert j == i || hs[j] + HEADER <= hs[i];
    } else {
      assert k - 1 == i + 1 || hs[i + 1] + HEADER <= hs[k - 1];
      assert j >= i || hs[j] + HEADER <= hs[i];
    }
  }

  lemma HoldsBetween(base: nat, m: seq<nat>, hs: seq<nat>, i: nat, n: nat)
    requires Spaced(base, m, hs) && i < |hs| - 1 && n % 4 == 0 && hs[i] <= n && n + HEADER <= hs[i + 1]
    ensures Holds(base, m, n)
  {
    hide Index;
    assert Holds(base, m, hs[i]) && Holds(base, m, hs[i + 1]);
  }

  lemma SplitOutside(base: nat, m: seq<nat>, hs: seq<nat>, i: nat, n: nat)
    requires Tiled(base, m, hs) && i < |hs| - 1 && !Used(base, m, hs[i])
    requires hs[i] <= n && n + HEADER <= hs[i + 1]
    ensures forall h :: h in Live(base, m, hs) ==> n + HEADER <= h || h + HEADER + Live(base, m, hs)[h] <= n
  {
    hide Index, Size, Next, Holds;
    forall h | h in Live(base, m, hs)
      ensures n + HEADER <= h || h + HEADER + Live(base, m, hs)[h] <= n
    {
      var k := LiveBlock(base, m, hs, h);
      InOrder(base, m, hs, k, i);
    }
  }

  lemma SplitHeaders(base: nat, m: seq<nat>, hs: seq<nat>, i: nat, need: nat)
    requires Spaced(base, m, hs) && i < |hs| - 1 && need % 4 == 0 && hs[i] + HEADER + need + HEADER <= hs[i + 1]
    requires Holds(base, m, hs[i] + HEADER + need)
    ensures var n := hs[i] + HEADER + need;
      var m' := SplitMemory(base, m, hs[i], hs[i + 1], need);
      && Linked(base, m', hs[i], n) && Used(base, m', hs[i]) && Size(base, m', hs[i]) == need + 1
      && Linked(base, m', n, hs[i + 1]) && !Used(base, m', n)
      && forall k :: 0 <= k < |hs| && k != i ==> SameHeader(base, m, m', hs[k])
  {
    hide Index, Next, Size, SetHeader, Linked, Used;
    var q, n := hs[i], hs[i] + HEADER + need;
    var m1 := SetHeader(base, m, q, n, need + 1);
    assert Holds(base, m, q) && Holds(base, m1, n);
    FourIsEven(need);
    hide Holds, SameHeader;
    TwoHeaders(base, m, q, hs[i + 1], need);
    OthersUnchanged(base, m, hs, i, n, need + 1);
    InsertedLeavesOthers(base, m, hs, i, n, m1);
  }

  lemma TwoHeaders(base: nat, m: seq<nat>, q: nat, next: nat, need: nat)
    requires Holds(base, m, q) && Holds(base, m, q + HEADER + need) && need % 2 == 0
    ensures var n, m' := q + HEADER + need, SplitMemory(base, m, q, next, need);
      && Linked(base, m', q, n) && Used(base, m', q) && Size(base, m', q) == need + 1
      && Linked(base, m', n, next) && !Used(base, m', n)
  {
    hide Index, Next, Size, SetHeader;
    var n, m1 := q + HEADER + need, SetHeader(base, m, q, q + HEADER + need, need + 1);
    SizeLeftIsStale(need);
    assert Holds(base, m1, n) && (need + 1) % 2 == 1 && STALE_SIZE % 2 == 0;
    hide Holds;
    HeaderWritten(base, m, q, n, need + 1);
    HeaderWritten(base, m1, n, next, STALE_SIZE);
    OtherHeaderUnchanged(base, m1, n, next, STALE_SIZE, q);
  }

  lemma InsertedLeavesOthers(base: nat, m: seq<nat>, hs: seq<nat>, i: nat, n: nat, m1: seq<nat>)
    requires Spaced(base, m, hs) && i < |hs| - 1 && hs[i] + HEADER <= n && n + HEADER <= hs[i + 1] && Holds(base, m1, n)
    requires |m1| == |m| && forall k :: 0 <= k < |hs| && k != i ==> SameHeader(base, m, m1, hs[k])
    ensures forall k :: 0 <= k < |hs| && k != i ==>
      SameHeader(base, m, SetHeader(base, m1, n, hs[i + 1], STALE_SIZE), hs[k])
  {
    hide Index, Next, Size, SetHeader;
    forall k | 0 <= k < |hs| && k != i
      ensures SameHeader(base, m, SetHeader(base, m1, n, hs[i + 1], STALE_SIZE), hs[k])
    {
      if k > i { Apart(base, m, hs, i + 1, k); } else { Apart(base, m, hs, k, i); }
      OtherHeaderUnchanged(base, m1, n, hs[i + 1], STALE_SIZE, hs[k]);
    }
  }

  lemma SplitIsTiled(base: nat, m: seq<nat>, hs: seq<nat>, i: nat, need: nat, m': seq<nat>)
    requires Tiled(base, m, hs) && i < |hs| - 1 && |m'| == |m|
    requires var n := hs[i] + HEADER + need;
      && Spaced(base, m, Inserted(hs, i, n)) && Linked(base, m', hs[i], n)
      && Linked(base, m', n, hs[i + 1]) && !Used(base, m', n)
    requires forall k :: 0 <= k < |hs| && k != i ==> SameHeader(base, m, m', hs[k])
    ensures Tiled(base, m', Inserted(hs, i, hs[i] + HEADER + need))
  {
    hide Index, Next, Size, Linked, SameHeader, Spaced, Used;
    var n := hs[i] + HEADER + need;
    var hs' := Inserted(hs, i, n);
    SpacedElsewhere(base, m, m', hs');
    forall k | 0 <= k < |hs'| - 1
      ensures Linked(base, m', hs'[k], hs'[k + 1])
    {
      if k < i { LinkKept(base, m, m', hs[k], hs[k + 1]); }
      if k > i + 1 { LinkKept(base, m, m', hs[k - 1], hs[k]); }
    }
    LastKept(base, m, m', hs[|hs| - 1]);
    if i < |hs| - 2 { LastKept(base, m, m', hs[|hs| - 2]); }
  }

  lemma SplitLive(base: nat, m: seq<nat>, hs: seq<nat>, i: nat, need: nat, m': seq<nat>)
    requires Spaced(base, m, hs) && i < |hs| - 1 && |m'| == |m| && !Used(base, m, hs[i])
    requires var n := hs[i] + HEADER + need;
      && Spaced(base, m', Inserted(hs, i, n)) && Holds(base, m', n) && !Used(base, m', n)
      && Used(base, m', hs[i]) && Size(base, m', hs[i]) == need + 1
    requires forall k :: 0 <= k < |hs| && k != i ==> SameHeader(base, m, m', hs[k])
    ensures Live(base, m', Inserted(hs, i, hs[i] + HEADER + need)) == Live(base, m, hs)[hs[i] := need]
  {
    hide Index, Next, Size, Holds, Used, Live, SameHeader;
    var n := hs[i] + HEADER + need;
    var hs' := Inserted(hs, i, n);
    InsertedElements(hs, i, n);
    forall h | h in hs && h != hs[i]
      ensures SameHeader(base, m, m', h)
    {
      var k := PositionOf(hs, h);
    }
    OneMoreLive(base, m, hs, m', hs', hs[i], need);
  }

  lemma InsertedElements(hs: seq<nat>, i: nat, n: nat)
    requires i < |hs|
    ensures forall h :: h in Inserted(hs, i, n) <==> h in hs || h == n
  {
    assert hs == hs[..i + 1] + hs[i + 1..];
  }

  lemma OneMoreLive(base: nat, m: seq<nat>, hs: seq<nat>, m': seq<nat>, hs': seq<nat>, q: nat, need: nat)
    requires Spaced(base, m, hs) && Spaced(base, m', hs')
    requires forall h :: h in hs && Used(base, m, h) ==> h in hs' && SameHeader(base, m, m', h)
    requires forall h :: h in hs' && Used(base, m', h) && h != q ==> h in hs && SameHeader(base, m, m', h)
    requires q in hs' && Used(base, m', q) && Size(base, m', q) == need + 1
    ensures Live(base, m', hs') == Live(base, m, hs)[q := need]
  {
    hide Index, Next, Size;
  }

  // ---------------------------------------------------------------- releasing

  function FreedMemory(base: nat, m: seq<nat>, h: nat): (m': seq<nat>)
    requires Holds(base, m, h)
  {
    var size := Size(base, m, h);
    m[Index(base, h) + 1 := size - size % 2]
  }

  // Clearing the low bit of a size takes exactly that block out of use.
  lemma FreeKeepsTiling(base: nat, m: seq<nat>, hs: seq<nat>, h: nat)
    requires Tiled(base, m, hs) && h in Live(base, m, hs)
    ensures var m' := FreedMemory(base, m, h);
      && Tiled(base, m', hs)
      && Live(base, m', hs) == Live(base, m, hs) - {h}
      && SameLiveWords(base, m, m', Live(base, m, hs) - {h})
  {
    var m' := FreedMemory(base, m, h);
    var size := Size(base, m, h);
    assert m' == SetHeader(base, m, h, Next(base, m, h), size - size % 2);
    var i := LiveBlock(base, m, hs, h);
    FreeByHeader(base, m, hs, i, m');
  }

  lemma FreeByHeader(base: nat, m: seq<nat>, hs: seq<nat>, i: nat, m': seq<nat>)
    requires Tiled(base, m, hs) && i < |hs| - 1 && Used(base, m, hs[i])
    requires m' == SetHeader(base, m, hs[i], Next(base, m, hs[i]), Size(base, m, hs[i]) - Size(base, m, hs[i]) % 2)
    ensures Tiled(base, m', hs)
    ensures Live(base, m', hs) == Live(base, m, hs) - {hs[i]}
    ensures SameLiveWords(base, m, m', Live(base, m, hs) - {hs[i]})
  {
    hide Index, Next, Size, Live, SameHeader;
    var next, size := Next(base, m, hs[i]), Size(base, m, hs[i]);
    HeaderWritten(base, m, hs[i], next, size - size % 2);
    OthersUnchanged(base, m, hs, i, next, size - size % 2);
    FreedIsTiled(base, m, hs, i, m');
    FreedLive(base, m, hs, i, m');
    UsedHeaderIsOutside(base, m, hs, i);
    LiveWordsKept(base, m, hs, hs[i], next, size - size % 2, Live(base, m, hs) - {hs[i]});
  }

  lemma UsedHeaderIsOutside(base: nat, m: seq<nat>, hs: seq<nat>, i: nat)
    requires Tiled(base, m, hs) && i < |hs| - 1
    ensures forall h :: h in Live(base, m, hs) - {hs[i]} ==>
      hs[i] + HEADER <= h || h + HEADER + Live(base, m, hs)[h] <= hs[i]
  {
    hide Index, Size, Next, Holds;
    forall h | h in Live(base, m, hs) - {hs[i]}
      ensures hs[i] + HEADER <= h || h + HEADER + Live(base, m, hs)[h] <= hs[i]
    {
      var k := LiveBlock(base, m, hs, h);
      HeaderOutside(base, m, hs, k, hs[i]);
    }
  }

  lemma FreedIsTiled(base: nat, m: seq<nat>, hs: seq<nat>, i: nat, m': seq<nat>)
    requires Tiled(base, m, hs) && i < |hs| - 1 && |m'| == |m| && Holds(base, m', hs[i])
    requires Next(base, m', hs[i]) == Next(base, m, hs[i]) && !Used(base, m', hs[i])
    requires forall k :: 0 <= k < |hs| && k != i ==> SameHeader(base, m, m', hs[k])
    ensures Tiled(base, m', hs)
  {
    hide Index, Next, Size, SameHeader, Spaced;
    SpacedElsewhere(base, m, m', hs);
    forall k | 0 <= k < |hs| - 1
      ensures Linked(base, m', hs[k], hs[k + 1])
    {
      if k != i { LinkKept(base, m, m', hs[k], hs[k + 1]); }
    }
    LastKept(base, m, m', hs[|hs| - 1]);
    if i < |hs| - 2 { LastKept(base, m, m', hs[|hs| - 2]); }
  }

  lemma FreedLive(base: nat, m: seq<nat>, hs: seq<nat>, i: nat, m': seq<nat>)
    requires Spaced(base, m, hs) && Spaced(base, m', hs) && i < |hs| && !Used(base, m', hs[i])
    requires forall k :: 0 <= k < |hs| && k != i ==> SameHeader(base, m, m', hs[k])
    ensures Live(base, m', hs) == Live(base, m, hs) - {hs[i]}
  {
    hide Index, Next, Size, Holds;
    forall h | h in hs && h != hs[i]
      ensures SameHeader(base, m, m', h)
    {
      var k := PositionOf(hs, h);
    }
  }

  // ---------------------------------------------------------------- initialising

  function InitialMemory(base: nat, m: seq<nat>): (m': seq<nat>)
    requires Holds(base, m, base) && |m| >= 4
    ensures |m'| == |m|
  {
    var q := base + 4 * |m| - HEADER;
    SetHeader(base, SetHeader(base, m, base, q, 4 * |m| - 2 * HEADER), q, 0, 0)
  }

  lemma InitialIsTiled(base: nat, m: seq<nat>)
    requires Holds(base, m, base) && |m| >= 4 && base > 0 && base + 4 * |m| <= WORD
    ensures var m', hs := InitialMemory(base, m), [base, base + 4 * |m| - HEADER];
      Tiled(base, m', hs) && Live(base, m', hs) == map[]
  {
    hide Index, SetHeader, Next, Size;
    var q: nat, size: nat := base + 4 * |m| - HEADER, 4 * |m| - 2 * HEADER;
    var m1 := SetHeader(base, m, base, q, size);
    QuotientUnique(q, 4, base / 4 + |m| - 2, 0);
    HeaderWritten(base, m, base, q, size);
    HeaderWritten(base, m1, q, 0, 0);
    OtherHeaderUnchanged(base, m1, q, 0, 0, base);
    QuotientUnique(size, 2, 2 * |m| - 8, 0);
  }

  // ---------------------------------------------------------------- a client storing into its block

  lemma StoreKeepsTiling(base: nat, m: seq<nat>, hs: seq<nat>, h: nat, i: nat, v: nat)
    requires Tiled(base, m, hs) && h in Live(base, m, hs) && i < |m|
    requires h + HEADER <= base + 4 * i < h + HEADER + Live(base, m, hs)[h]
    ensures var m' := m[i := v];
      && Tiled(base, m', hs)
      && Live(base, m', hs) == Live(base, m, hs)
      && SameLiveWords(base, m, m', Live(base, m, hs) - {h})
  {
    hide Live;
    var m' := m[i := v];
    LiveBlocksAreDisjoint(base, m, hs, h);
    var k := LiveBlock(base, m, hs, h);
    assert Spaced(base, m, hs);
    forall x | x in hs
      ensures SameHeader(base, m, m', x)
    {
      StoreAvoidsHeader(base, m, hs, h, i, v, x);
    }
    SameHeadersSameTiling(base, m, hs, m');
  }

  lemma StoreAvoidsHeader(base: nat, m: seq<nat>, hs: seq<nat>, h: nat, i: nat, v: nat, x: nat)
    requires Spaced(base, m, hs) && x in hs && h in hs && i < |m|
    requires x + HEADER <= h + HEADER <= base + 4 * i || base + 4 * i < x
    ensures SameHeader(base, m, m[i := v], x)
  {
    assert Holds(base, m, x);
    WordApart(base, x, i);
    hide Index;
  }

  lemma WordApart(base: nat, x: nat, i: nat)
    requires base % 4 == 0 && x % 4 == 0 && base <= x && (x + HEADER <= base + 4 * i || base + 4 * i < x)
    ensures i != Index(base, x) && i != Index(base, x) + 1
  {}

  lemma SameHeadersSameTiling(base: nat, m: seq<nat>, hs: seq<nat>, m': seq<nat>)
    requires Tiled(base, m, hs) && |m'| == |m|
    requires forall x :: x in hs ==> SameHeader(base, m, m', x)
    ensures Tiled(base, m', hs) && Live(base, m', hs) == Live(base, m, hs)
  {
    hide Index, Next, Size;
    SpacedElsewhere(base, m, m', hs);
    forall k | 0 <= k < |hs| - 1
      ensures Linked(base, m', hs[k], hs[k + 1])
    {
      LinkKept(base, m, m', hs[k], hs[k + 1]);
    }
    assert hs[|hs| - 1] in hs && hs[|hs| - 2] in hs;
    SameUsedSameLive(base, m, hs, m', hs);
  }
}

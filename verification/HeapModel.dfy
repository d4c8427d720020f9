/**
 The block list of software/lib/malloc.c on values: memory is a sequence of 32-bit words starting at byte
 address `base`, and a block header is the two words (next, size) at a 4-aligned address. The allocator in
 Allocator.dfy changes the words in place.

 The size field of a block in use is exact, with the low bit set. That of a free block is only known to be
 even: the header split off by malloc gets a stale value (malloc.c:45) that is recomputed before it is used.
 */
module HeapModel {

  const WORD: nat := 0x1_0000_0000
  const HEADER: nat := 8

  // Words wrap around.
  function InWord(x: int): nat { x % WORD }

  // align4
  function Align4(size: nat): nat { InWord(size + 3) / 4 * 4 }

  // What line 32 asks of a free block, and the eight requests for which its sum wraps to 0 or 4. Larger ones are
  // rounded to 0.
  function Room(size: nat): nat { InWord(Align4(size) + HEADER) }
  predicate Wraps(size: nat) { WORD - 12 < size <= WORD - 4 }

  lemma WrappingRequests(size: nat)
    requires size < WORD
    ensures Align4(size) % 4 == 0 && Align4(size) < WORD
    ensures Wraps(size) <==> Align4(size) + HEADER >= WORD
    ensures Room(size) == if !Wraps(size) then Align4(size) + HEADER else if size <= WORD - 8 then 0 else 4
    ensures Align4(size) == 0 <==> size == 0 || size > WORD - 4
    ensures size <= WORD - 4 ==> size <= Align4(size) < size + 4
  {}

  function Index(base: nat, a: nat): int { (a - base) / 4 }

  // Address a can hold a header.
  predicate Holds(base: nat, m: seq<nat>, a: nat) {
    base % 4 == 0 && a % 4 == 0 && base <= a && a + HEADER <= base + 4 * |m|
  }

  lemma StillHolds(base: nat, m: seq<nat>, m': seq<nat>, a: nat)
    requires Holds(base, m, a) && |m'| == |m|
    ensures Holds(base, m', a)
  {}

  function Next(base: nat, m: seq<nat>, a: nat): nat
    requires Holds(base, m, a)
  {
    m[Index(base, a)]
  }

  function Size(base: nat, m: seq<nat>, a: nat): nat
    requires Holds(base, m, a)
  {
    m[Index(base, a) + 1]
  }

  predicate Used(base: nat, m: seq<nat>, a: nat)
    requires Holds(base, m, a)
  {
    Size(base, m, a) % 2 == 1
  }

  function Sentinel(base: nat, m: seq<nat>): int { base + 4 * |m| - HEADER }

  // The headers hs start at base, end with the sentinel, and leave room for each other.
  ghost predicate Spaced(base: nat, m: seq<nat>, hs: seq<nat>) {
    && |hs| >= 2 && base > 0 && base + 4 * |m| <= WORD
    && hs[0] == base && hs[|hs| - 1] == Sentinel(base, m)
    && (forall k :: 0 <= k < |hs| ==> Holds(base, m, hs[k]))
    && (forall j, k :: 0 <= j < k < |hs| ==> hs[j] + HEADER <= hs[k])
  }

  // The block at x is followed by the header y, and its size, if it is in use, is exact.
  ghost predicate Linked(base: nat, m: seq<nat>, x: nat, y: nat) {
    && Holds(base, m, x)
    && Next(base, m, x) == y
    && (Used(base, m, x) ==> Size(base, m, x) == y - x - HEADER + 1)
  }

  // The headers are linked by `next`, and the last block is free.
  ghost predicate Tiled(base: nat, m: seq<nat>, hs: seq<nat>) {
    && Spaced(base, m, hs)
    && (forall k :: 0 <= k < |hs| - 1 ==> Linked(base, m, hs[k], hs[k + 1]))
    && Next(base, m, hs[|hs| - 1]) == 0 && Size(base, m, hs[|hs| - 1]) == 0
    && !Used(base, m, hs[|hs| - 2])
  }

  // The blocks in use: header address to payload size in bytes.
  ghost function Live(base: nat, m: seq<nat>, hs: seq<nat>): map<nat, int>
    requires Spaced(base, m, hs)
  {
    map h | h in hs && Used(base, m, h) :: Size(base, m, h) - 1
  }

  // The words of the blocks in `live`, headers and payloads, are the same in both memories.
  ghost predicate SameLiveWords(base: nat, m: seq<nat>, m': seq<nat>, live: map<nat, int>) {
    && |m'| == |m|
    && forall h, i :: h in live && 0 <= i < |m| && h <= base + 4 * i < h + HEADER + live[h] ==> m'[i] == m[i]
  }

  // ---------------------------------------------------------------- what a tiling means

  lemma PositionOf(hs: seq<nat>, h: nat) returns (k: nat)
    requires h in hs
    ensures k < |hs| && hs[k] == h
  {
    k :| 0 <= k < |hs| && hs[k] == h;
  }

  // A block in use reaches exactly to the next header.
  lemma LiveBlock(base: nat, m: seq<nat>, hs: seq<nat>, h: nat) returns (k: nat)
    requires Tiled(base, m, hs) && h in Live(base, m, hs)
    ensures k < |hs| - 1 && hs[k] == h && h + HEADER + Live(base, m, hs)[h] == hs[k + 1]
  {
    hide Index, Size, Next, Holds;
    k := PositionOf(hs, h);
  }

  // Two headers are at least one header apart, in the order of their positions.
  lemma Apart(base: nat, m: seq<nat>, hs: seq<nat>, j: nat, k: nat)
    requires Spaced(base, m, hs) && j < |hs| && k < |hs|
    ensures hs[j] < hs[k] ==> j < k && hs[j] + HEADER <= hs[k]
    ensures j <= k ==> hs[j] <= hs[k]
  {
    hide Holds;
  }

  // Blocks in use lie inside the heap, before the sentinel, and overlap neither each other nor any header.
  lemma LiveBlocksAreDisjoint(base: nat, m: seq<nat>, hs: seq<nat>, h: nat)
    requires Tiled(base, m, hs) && h in Live(base, m, hs)
    ensures var end := h + HEADER + Live(base, m, hs)[h];
      && Live(base, m, hs)[h] >= 0 && base <= h && end <= Sentinel(base, m) && end in hs
      && (forall x :: x in hs && x != h ==> x + HEADER <= h || end <= x)
      && (forall g :: g in Live(base, m, hs) && g != h ==> g + HEADER + Live(base, m, hs)[g] <= h || end <= g)
  {
    hide Tiled, Holds, Used, Spaced, Live;
    var k := LiveBlock(base, m, hs, h);
    Ends(base, m, hs, k);
    forall x | x in hs && x != h
      ensures x + HEADER <= h || hs[k + 1] <= x
    {
      HeaderOutside(base, m, hs, k, x);
    }
    forall g | g in Live(base, m, hs) && g != h
      ensures g + HEADER + Live(base, m, hs)[g] <= h || hs[k + 1] <= g
    {
      var j := LiveBlock(base, m, hs, g);
      InOrder(base, m, hs, j, k);
    }
  }

  lemma Ends(base: nat, m: seq<nat>, hs: seq<nat>, k: nat)
    requires Tiled(base, m, hs) && k < |hs| - 1
    ensures base <= hs[k] && hs[k] + HEADER <= hs[k + 1] <= Sentinel(base, m) && hs[k + 1] in hs
    ensures Spaced(base, m, hs)
  {
    hide Holds;
    Apart(base, m, hs, 0, k);
    Apart(base, m, hs, k + 1, |hs| - 1);
  }

  lemma HeaderOutside(base: nat, m: seq<nat>, hs: seq<nat>, k: nat, x: nat)
    requires Spaced(base, m, hs) && k < |hs| - 1 && x in hs && x != hs[k]
    ensures x + HEADER <= hs[k] || hs[k + 1] <= x
  {
    hide Holds;
    var j := PositionOf(hs, x);
    if j > k { Apart(base, m, hs, k + 1, j); }
  }

  lemma InOrder(base: nat, m: seq<nat>, hs: seq<nat>, j: nat, k: nat)
    requires Spaced(base, m, hs) && j < |hs| - 1 && k < |hs| - 1 && hs[j] != hs[k]
    ensures hs[j + 1] <= hs[k] || hs[k + 1] <= hs[j]
  {
    hide Holds;
    if j < k { Apart(base, m, hs, j + 1, k); } else { Apart(base, m, hs, k + 1, j); }
  }

  // ---------------------------------------------------------------- updating one header

  function SetHeader(base: nat, m: seq<nat>, a: nat, next: nat, size: nat): (m': seq<nat>)
    requires Holds(base, m, a)
    ensures |m'| == |m|
  {
    m[Index(base, a) := next][Index(base, a) + 1 := size]
  }

  ghost predicate SameHeader(base: nat, m: seq<nat>, m': seq<nat>, x: nat) {
    && Holds(base, m, x) && Holds(base, m', x)
    && Next(base, m', x) == Next(base, m, x) && Size(base, m', x) == Size(base, m, x)
  }

  // Writing one header leaves every header that does not overlap it alone.
  lemma OtherHeaderUnchanged(base: nat, m: seq<nat>, a: nat, next: nat, size: nat, x: nat)
    requires Holds(base, m, a) && Holds(base, m, x)
    requires x + HEADER <= a || a + HEADER <= x
    ensures SameHeader(base, m, SetHeader(base, m, a, next, size), x)
  {}

  lemma HeaderWritten(base: nat, m: seq<nat>, a: nat, next: nat, size: nat)
    requires Holds(base, m, a)
    ensures var m' := SetHeader(base, m, a, next, size);
      Holds(base, m', a) && Next(base, m', a) == next && Size(base, m', a) == size
  {}

  // A header outside the live blocks can be rewritten.
  lemma LiveWordsKept(base: nat, m: seq<nat>, hs: seq<nat>, a: nat, next: nat, size: nat, live: map<nat, int>)
    requires Holds(base, m, a)
    requires forall h :: h in live ==> a + HEADER <= h || h + HEADER + live[h] <= a
    ensures SameLiveWords(base, m, SetHeader(base, m, a, next, size), live)
  {}

  lemma SameWordsTrans(base: nat, m0: seq<nat>, m1: seq<nat>, m2: seq<nat>, live: map<nat, int>)
    requires SameLiveWords(base, m0, m1, live) && SameLiveWords(base, m1, m2, live)
    ensures SameLiveWords(base, m0, m2, live)
  {}

  // ---------------------------------------------------------------- coalescing

  ghost predicate FreeRun(base: nat, m: seq<nat>, hs: seq<nat>, i: nat, j: nat)
    requires Spaced(base, m, hs)
  {
    i < j < |hs| && forall k :: i <= k < j ==> !Used(base, m, hs[k])
  }

  function Merged(hs: seq<nat>, i: nat, j: nat): seq<nat>
    requires i < j < |hs|
  {
    hs[..i + 1] + hs[j..]
  }

  // Merging the free blocks i..j into block i, with their exact size, keeps the tiling and the live blocks.
  lemma MergeKeepsTiling(base: nat, m: seq<nat>, hs: seq<nat>, i: nat, j: nat)
    requires Tiled(base, m, hs) && FreeRun(base, m, hs, i, j)
    ensures var m' := SetHeader(base, m, hs[i], hs[j], hs[j] - hs[i] - HEADER);
      var hs' := Merged(hs, i, j);
      && Tiled(base, m', hs')
      && Live(base, m', hs') == Live(base, m, hs)
      && SameLiveWords(base, m, m', Live(base, m, hs))
  {
    hide Index, Live;
    Apart(base, m, hs, i, j);
    var size := hs[j] - hs[i] - HEADER;
    var m' := SetHeader(base, m, hs[i], hs[j], size);
    HeaderWritten(base, m, hs[i], hs[j], size);
    OthersUnchanged(base, m, hs, i, hs[j], size);
    MergedIsSpaced(base, m, hs, i, j);
    MergedIsTiled(base, m, hs, i, j, m');
    LiveAfterMerge(base, m, hs, i, j, m');
    FreeHeaderIsOutside(base, m, hs, i);
    LiveWordsKept(base, m, hs, hs[i], hs[j], size, Live(base, m, hs));
  }

  lemma OthersUnchanged(base: nat, m: seq<nat>, hs: seq<nat>, i: nat, next: nat, size: nat)
    requires Spaced(base, m, hs) && i < |hs|
    ensures var m' := SetHeader(base, m, hs[i], next, size);
      forall k :: 0 <= k < |hs| && k != i ==> SameHeader(base, m, m', hs[k])
  {
    hide Index, Next, Size, SameHeader;
    forall k | 0 <= k < |hs| && k != i
      ensures SameHeader(base, m, SetHeader(base, m, hs[i], next, size), hs[k])
    {
      OtherHeaderUnchanged(base, m, hs[i], next, size, hs[k]);
    }
  }

  // A free header does not belong to any block in use.
  lemma FreeHeaderIsOutside(base: nat, m: seq<nat>, hs: seq<nat>, i: nat)
    requires Tiled(base, m, hs) && i < |hs| && !Used(base, m, hs[i])
    ensures forall h :: h in Live(base, m, hs) ==> hs[i] + HEADER <= h || h + HEADER + Live(base, m, hs)[h] <= hs[i]
  {
    hide Index, Size, Next, Holds;
    forall h | h in Live(base, m, hs)
      ensures hs[i] + HEADER <= h || h + HEADER + Live(base, m, hs)[h] <= hs[i]
    {
      var k := LiveBlock(base, m, hs, h);
      HeaderOutside(base, m, hs, k, hs[i]);
    }
  }

  lemma MergedIsSpaced(base: nat, m: seq<nat>, hs: seq<nat>, i: nat, j: nat)
    requires Spaced(base, m, hs) && i < j < |hs|
    ensures Spaced(base, m, Merged(hs, i, j))
  {}

  lemma MergedIsTiled(base: nat, m: seq<nat>, hs: seq<nat>, i: nat, j: nat, m': seq<nat>)
    requires Tiled(base, m, hs) && FreeRun(base, m, hs, i, j) && |m'| == |m|
    requires Spaced(base, m, Merged(hs, i, j)) && Linked(base, m', hs[i], hs[j]) && !Used(base, m', hs[i])
    requires forall k :: 0 <= k < |hs| && k != i ==> SameHeader(base, m, m', hs[k])
    ensures Tiled(base, m', Merged(hs, i, j))
  {
    hide Index, Next, Size, Linked, SameHeader, Spaced, Used;
    var hs' := Merged(hs, i, j);
    SpacedElsewhere(base, m, m', hs');
    forall k | 0 <= k < |hs'| - 1
      ensures Linked(base, m', hs'[k], hs'[k + 1])
    {
      if k < i {
        LinkKept(base, m, m', hs[k], hs[k + 1]);
      } else if k > i {
        LinkKept(base, m, m', hs[k - i - 1 + j], hs[k - i + j]);
      }
    }
    LastKept(base, m, m', hs[|hs| - 1]);
    if j < |hs| - 1 { LastKept(base, m, m', hs[|hs| - 2]); }
  }

  // Spacing only depends on the size of the memory.
  lemma SpacedElsewhere(base: nat, m: seq<nat>, m': seq<nat>, hs: seq<nat>)
    requires Spaced(base, m, hs) && |m'| == |m|
    ensures Spaced(base, m', hs)
  {
    hide Index;
  }

  lemma LinkKept(base: nat, m: seq<nat>, m': seq<nat>, x: nat, y: nat)
    requires Linked(base, m, x, y) && SameHeader(base, m, m', x)
    ensures Linked(base, m', x, y)
  {
    hide Index, Next, Size;
  }

  lemma LastKept(base: nat, m: seq<nat>, m': seq<nat>, x: nat)
    requires SameHeader(base, m, m', x)
    ensures Holds(base, m, x) && Holds(base, m', x)
    ensures Next(base, m', x) == Next(base, m, x) && Size(base, m', x) == Size(base, m, x)
    ensures Used(base, m', x) == Used(base, m, x)
  {
    hide Index, Next, Size;
  }

  lemma LiveAfterMerge(base: nat, m: seq<nat>, hs: seq<nat>, i: nat, j: nat, m': seq<nat>)
    requires Spaced(base, m, hs) && FreeRun(base, m, hs, i, j) && |m'| == |m|
    requires Spaced(base, m', Merged(hs, i, j))
    requires !Used(base, m', hs[i])
    requires forall k :: 0 <= k < |hs| && k != i ==> SameHeader(base, m, m', hs[k])
    ensures Live(base, m', Merged(hs, i, j)) == Live(base, m, hs)
  {
    hide Index, Next, Size, Holds, Used, Live;
    var hs' := Merged(hs, i, j);
    forall h | h in hs && Used(base, m, h)
      ensures h in hs' && SameHeader(base, m, m', h)
    {
      StaysInMerged(hs, i, j, h) by { UsedIsOutside(base, m, hs, i, j, h); }
      var k := PositionOf(hs, h);
    }
    forall h | h in hs' && Used(base, m', h)
      ensures h in hs && SameHeader(base, m, m', h)
    {
      var k := FromMerged(hs, i, j, h);
    }
    SameUsedSameLive(base, m, hs, m', hs');
  }

  lemma UsedIsOutside(base: nat, m: seq<nat>, hs: seq<nat>, i: nat, j: nat, h: nat)
    requires Spaced(base, m, hs) && FreeRun(base, m, hs, i, j) && h in hs && Used(base, m, h)
    ensures h in hs[..i] || h in hs[j..]
  {
    hide Used, Holds;
    var k := PositionOf(hs, h);
    if k < i { assert hs[..i][k] == h; } else { assert hs[j..][k - j] == h; }
  }

  lemma StaysInMerged(hs: seq<nat>, i: nat, j: nat, h: nat)
    requires i < j < |hs| && (h in hs[..i] || h in hs[j..])
    ensures h in Merged(hs, i, j)
  {
    if h in hs[..i] { assert hs[..i] == hs[..i + 1][..i]; }
  }

  lemma FromMerged(hs: seq<nat>, i: nat, j: nat, h: nat) returns (k: nat)
    requires i < j < |hs| && h in Merged(hs, i, j)
    ensures k < |hs| && hs[k] == h && (k <= i || k >= j)
  {
    k := PositionOf(Merged(hs, i, j), h);
    if k > i { k := k - i - 1 + j; }
  }

  // Memories that agree on the headers in use have the same live blocks.
  lemma SameUsedSameLive(base: nat, m: seq<nat>, hs: seq<nat>, m': seq<nat>, hs': seq<nat>)
    requires Spaced(base, m, hs) && Spaced(base, m', hs')
    requires forall h :: h in hs && Used(base, m, h) ==> h in hs' && SameHeader(base, m, m', h)
    requires forall h :: h in hs' && Used(base, m', h) ==> h in hs && SameHeader(base, m, m', h)
    ensures Live(base, m', hs') == Live(base, m, hs)
  {
    hide Index, Next, Size;
  }
}

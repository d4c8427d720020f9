/**
 The search of malloc (malloc.c:17-35) against the heap it started from: which runs of free blocks it has
 passed, and that merging the blocks of a run on the way changes nothing a later step or a client can see.
 */
module HeapSearch {
  import opened HeapModel

  // A run of adjacent free blocks i..j offers hs[j] - hs[i] - 8 bytes of payload once merged; malloc asks
  // for a room of eight more than it hands out, for the header it splits off.
  ghost predicate Serves(base: nat, m: seq<nat>, hs: seq<nat>, i: nat, j: nat, room: nat)
    requires Spaced(base, m, hs)
  {
    FreeRun(base, m, hs, i, j) && hs[j] - hs[i] - HEADER >= room
  }

  // Some run starting at or after block `from` is large enough.
  ghost predicate CanServe(base: nat, m: seq<nat>, hs: seq<nat>, from: nat, room: nat)
    requires Spaced(base, m, hs)
  {
    exists i: nat, j: nat :: from <= i && Serves(base, m, hs, i, j, room)
  }

  // No run starting in [from, k) is.
  ghost predicate NoneBefore(base: nat, m: seq<nat>, hs: seq<nat>, from: nat, k: nat, room: nat)
    requires Spaced(base, m, hs)
  {
    forall i: nat, j: nat :: from <= i < k ==> !Serves(base, m, hs, i, j, room)
  }

  // A run that is large enough starts at block i, and none does from `from` up to it.
  ghost predicate FirstFit(base: nat, m: seq<nat>, hs: seq<nat>, from: nat, i: nat, room: nat)
    requires Spaced(base, m, hs)
  {
    && from <= i < |hs| && NoneBefore(base, m, hs, from, i, room)
    && exists j: nat :: Serves(base, m, hs, i, j, room)
  }

  // It lies at or after the block the search starts from, and after it if that one is in use.
  lemma FirstFitIsFurther(base: nat, m: seq<nat>, hs: seq<nat>, from: nat, i: nat, room: nat)
    requires Spaced(base, m, hs) && FirstFit(base, m, hs, from, i, room)
    ensures from < |hs|
    ensures i < |hs| && hs[from] <= hs[i] && (hs[from] in Live(base, m, hs) ==> hs[from] < hs[i])
  {
    hide Index, Size, Next, Holds;
    var j: nat :| Serves(base, m, hs, i, j, room);
    assert FreeRun(base, m, hs, i, j);
    UsedIsLive(base, m, hs, from);
    UsedIsLive(base, m, hs, i);
    Apart(base, m, hs, from, i);
  }

  // The search has reached block p0 of the original list hs0, which is block p of the current list hs.
  ghost predicate Searching(base: nat, m0: seq<nat>, hs0: seq<nat>, m: seq<nat>, hs: seq<nat>,
                            from: nat, p0: nat, p: nat, room: nat)
  {
    && Tiled(base, m0, hs0) && Tiled(base, m, hs) && |m| == |m0|
    && Live(base, m, hs) == Live(base, m0, hs0)
    && SameLiveWords(base, m0, m, Live(base, m0, hs0))
    && from <= p < |hs| && from <= p0 < |hs0| && hs[from] == hs0[from]
    && hs[p..] == hs0[p0..]
    && (forall k :: p0 <= k < |hs0| ==> SameHeader(base, m0, m, hs0[k]))
    && NoneBefore(base, m0, hs0, from, p0, room)
  }

  lemma SearchStarts(base: nat, m: seq<nat>, hs: seq<nat>, from: nat, room: nat)
    requires Tiled(base, m, hs) && from < |hs|
    ensures Searching(base, m, hs, m, hs, from, from, from, room)
  {
    hide Index, Live;
  }

  // What the search reads at its current block is what the original memory held.
  lemma CurrentBlock(base: nat, m0: seq<nat>, hs0: seq<nat>, m: seq<nat>, hs: seq<nat>,
                     from: nat, p0: nat, p: nat, room: nat)
    requires Searching(base, m0, hs0, m, hs, from, p0, p, room)
    ensures hs[p] == hs0[p0] && |hs| - p == |hs0| - p0 && Holds(base, m, hs[p])
    ensures Used(base, m, hs[p]) == Used(base, m0, hs0[p0]) && Next(base, m, hs[p]) == Next(base, m0, hs0[p0])
    ensures (Next(base, m, hs[p]) == 0) == (p == |hs| - 1)
    ensures p < |hs| - 1 ==> Next(base, m, hs[p]) == hs[p + 1]
    ensures p == |hs| - 1 ==> !Used(base, m, hs[p])
    ensures p == |hs| - 2 ==> !Used(base, m, hs[p])
  {
    hide Index, Live, SameLiveWords, NoneBefore, Next, Size;
    assert hs[p..][0] == hs0[p0..][0];
    assert SameHeader(base, m0, m, hs0[p0]);
    LastKept(base, m0, m, hs0[p0]);
    if p < |hs| - 1 {
      assert Linked(base, m, hs[p], hs[p + 1]);
      Apart(base, m, hs, 0, p + 1);
    }
  }

  // Passing a used block: no run starts there.
  lemma PassUsed(base: nat, m0: seq<nat>, hs0: seq<nat>, m: seq<nat>, hs: seq<nat>,
                 from: nat, p0: nat, p: nat, room: nat)
    requires Searching(base, m0, hs0, m, hs, from, p0, p, room)
    requires Holds(base, m, hs[p]) && Used(base, m, hs[p])
    ensures Searching(base, m0, hs0, m, hs, from, p0 + 1, p + 1, room) && p + 1 < |hs| - 1
  {
    hide Index, Live, SameLiveWords, Next, Size, Tiled, Used, SameHeader;
    TiledIsSpaced(base, m0, hs0);
    TiledIsSpaced(base, m, hs);
    CurrentBlock(base, m0, hs0, m, hs, from, p0, p, room);
    assert hs[p..][1..] == hs0[p0..][1..];
    assert hs[p + 1..] == hs[p..][1..] && hs0[p0 + 1..] == hs0[p0..][1..];
  }

  lemma TiledIsSpaced(base: nat, m: seq<nat>, hs: seq<nat>)
    requires Tiled(base, m, hs)
    ensures Spaced(base, m, hs)
  {}

  // A run that starts inside the free blocks p0..q0 ends at q0 at the latest, so it is no larger than the
  // whole.
  lemma RunsEndHere(base: nat, m: seq<nat>, hs: seq<nat>, p: nat, q: nat, i: nat, j: nat, room: nat)
    requires Spaced(base, m, hs) && FreeRun(base, m, hs, p, q)
    requires q == |hs| - 1 || Used(base, m, hs[q])
    requires p <= i < q && Serves(base, m, hs, i, j, room)
    ensures j <= q && Serves(base, m, hs, p, q, room)
  {
    hide Used, Holds;
    Apart(base, m, hs, p, i);
    Apart(base, m, hs, j, q);
  }

  // Merging the free blocks p..q of the current list, which end at a used block or the sentinel.
  lemma MergeRun(base: nat, m0: seq<nat>, hs0: seq<nat>, m: seq<nat>, hs: seq<nat>,
                 from: nat, p0: nat, p: nat, q: nat, room: nat)
    requires Searching(base, m0, hs0, m, hs, from, p0, p, room)
    requires FreeRun(base, m, hs, p, q) && (q == |hs| - 1 || Used(base, m, hs[q]))
    ensures var q0 := p0 + (q - p);
      var m' := SetHeader(base, m, hs[p], hs[q], hs[q] - hs[p] - HEADER);
      var hs' := Merged(hs, p, q);
      && q0 < |hs0| && hs0[q0] == hs[q] && hs0[p0] == hs[p]
      && Tiled(base, m', hs') && |m'| == |m|
      && hs'[p] == hs[p] && hs'[p + 1] == hs[q] && Holds(base, m', hs[p]) && !Used(base, m', hs[p])
      && Next(base, m', hs'[p]) == hs[q] && Size(base, m', hs'[p]) == hs[q] - hs[p] - HEADER
      && Live(base, m', hs') == Live(base, m0, hs0)
      && SameLiveWords(base, m0, m', Live(base, m0, hs0))
      && p + 1 < |hs'| && (q == |hs| - 1 ==> p + 1 == |hs'| - 1)
      && Spaced(base, m0, hs0)
      && (!Serves(base, m0, hs0, p0, q0, room) ==> Holds(base, m', hs[q]) && (q == |hs| - 1 || Used(base, m', hs[q])))
      && (Serves(base, m0, hs0, p0, q0, room) <==> hs[q] - hs[p] - HEADER >= room)
      && (!Serves(base, m0, hs0, p0, q0, room) ==> Searching(base, m0, hs0, m', hs', from, q0, p + 1, room))
  {
    hide Index, Live, SameHeader, Size, Next, NoneBefore;
    var q0 := p0 + (q - p);
    var size := hs[q] - hs[p] - HEADER;
    var m' := SetHeader(base, m, hs[p], hs[q], size);
    MergeKeepsTiling(base, m, hs, p, q);
    HeaderWritten(base, m, hs[p], hs[q], size);
    SuffixAt(hs, p, hs0, p0, q - p);
    SuffixAt(hs, p, hs0, p0, 0);
    RunInOriginal(base, m0, hs0, m, hs, from, p0, p, q, room);
    SameWordsTrans(base, m0, m, m', Live(base, m0, hs0));
    assert Even(hs[q] - hs[p] - HEADER) by { HeadersAreAligned(base, m, hs, p, q); }
    if !Serves(base, m0, hs0, p0, q0, room) {
      SearchGoesOn(base, m0, hs0, m, hs, from, p0, p, q, room, size);
      LastKept(base, m0, m', hs0[q0]);
    }
  }

  lemma SearchGoesOn(base: nat, m0: seq<nat>, hs0: seq<nat>, m: seq<nat>, hs: seq<nat>,
                     from: nat, p0: nat, p: nat, q: nat, room: nat, size: nat)
    requires Searching(base, m0, hs0, m, hs, from, p0, p, room) && p < q < |hs|
    requires var q0, m', hs' := p0 + (q - p), SetHeader(base, m, hs[p], hs[q], size), Merged(hs, p, q);
      && q0 < |hs0| && FreeRun(base, m0, hs0, p0, q0) && (q0 == |hs0| - 1 || Used(base, m0, hs0[q0]))
      && !Serves(base, m0, hs0, p0, q0, room)
      && Tiled(base, m', hs') && Live(base, m', hs') == Live(base, m0, hs0)
      && SameLiveWords(base, m0, m', Live(base, m0, hs0))
    ensures Searching(base, m0, hs0, SetHeader(base, m, hs[p], hs[q], size), Merged(hs, p, q),
                      from, p0 + (q - p), p + 1, room)
  {
    hide Index, Live, SameHeader, Size, Next, NoneBefore, FreeRun, Serves, SameLiveWords, SetHeader, Linked;
    NoneInRun(base, m0, hs0, from, p0, p0 + (q - p), room);
    SuffixHeaders(base, m0, hs0, m, hs, p0, p, q, hs[q], size);
    MergedSuffix(hs, p, q, hs0, p0);
  }

  // If the run p0..q0 as a whole is too small, so is every run that starts inside it.
  lemma NoneInRun(base: nat, m: seq<nat>, hs: seq<nat>, from: nat, p0: nat, q0: nat, room: nat)
    requires Spaced(base, m, hs) && FreeRun(base, m, hs, p0, q0) && (q0 == |hs| - 1 || Used(base, m, hs[q0]))
    requires NoneBefore(base, m, hs, from, p0, room) && !Serves(base, m, hs, p0, q0, room)
    ensures NoneBefore(base, m, hs, from, q0, room)
  {
    hide Used, Holds, Spaced;
    forall i: nat, j: nat | p0 <= i < q0
      ensures !Serves(base, m, hs, i, j, room)
    {
      if Serves(base, m, hs, i, j, room) { RunsEndHere(base, m, hs, p0, q0, i, j, room); }
    }
  }

  predicate Even(x: int) { x % 2 == 0 }

  lemma HeadersAreAligned(base: nat, m: seq<nat>, hs: seq<nat>, p: nat, q: nat)
    requires Spaced(base, m, hs) && p < |hs| && q < |hs|
    ensures Even(hs[q] - hs[p] - HEADER)
  {
    assert Holds(base, m, hs[p]) && Holds(base, m, hs[q]);
    EvenDifference(hs[q], hs[p]);
  }

  lemma EvenDifference(x: nat, y: nat)
    requires x % 4 == 0 && y % 4 == 0
    ensures Even(x - y - HEADER)
  {
    assert x - y - HEADER == 2 * (2 * (x / 4) - 2 * (y / 4) - 4);
  }

  lemma SuffixAt(hs: seq<nat>, p: nat, hs0: seq<nat>, p0: nat, d: nat)
    requires p + d < |hs| && p0 <= |hs0| && hs[p..] == hs0[p0..]
    ensures p0 + d < |hs0| && hs[p + d] == hs0[p0 + d] && |hs| - p == |hs0| - p0
  {
    assert hs[p..][d] == hs0[p0..][d];
  }

  lemma MergedSuffix(hs: seq<nat>, p: nat, q: nat, hs0: seq<nat>, p0: nat)
    requires p < q < |hs| && p0 <= |hs0| && hs[p..] == hs0[p0..]
    ensures p0 + (q - p) <= |hs0| && Merged(hs, p, q)[p + 1..] == hs0[p0 + (q - p)..]
  {
    assert |hs[p..]| == |hs0[p0..]|;
    assert hs[p..][q - p..] == hs0[p0..][q - p..];
    assert hs[q..] == hs[p..][q - p..] && hs0[p0 + (q - p)..] == hs0[p0..][q - p..];
    assert Merged(hs, p, q)[p + 1..] == hs[q..];
  }

  lemma RunInOriginal(base: nat, m0: seq<nat>, hs0: seq<nat>, m: seq<nat>, hs: seq<nat>,
                      from: nat, p0: nat, p: nat, q: nat, room: nat)
    requires Searching(base, m0, hs0, m, hs, from, p0, p, room)
    requires FreeRun(base, m, hs, p, q) && (q == |hs| - 1 || Used(base, m, hs[q]))
    ensures var q0 := p0 + (q - p);
      q0 < |hs0| && FreeRun(base, m0, hs0, p0, q0) && (q0 == |hs0| - 1 || Used(base, m0, hs0[q0]))
  {
    hide Index, Live, Next, Size, SameLiveWords, NoneBefore, Linked;
    var q0 := p0 + (q - p);
    SuffixAt(hs, p, hs0, p0, q - p);
    forall k | p0 <= k <= q0
      ensures Used(base, m0, hs0[k]) == Used(base, m, hs[p + (k - p0)])
    {
      SuffixAt(hs, p, hs0, p0, k - p0);
      assert SameHeader(base, m0, m, hs0[k]);
    }
  }

  lemma SuffixHeaders(base: nat, m0: seq<nat>, hs0: seq<nat>, m: seq<nat>, hs: seq<nat>,
                      p0: nat, p: nat, q: nat, next: nat, size: nat)
    requires Spaced(base, m, hs) && p < q < |hs| && p0 <= |hs0| && hs[p..] == hs0[p0..]
    requires forall k :: p0 <= k < |hs0| ==> SameHeader(base, m0, m, hs0[k])
    ensures var m' := SetHeader(base, m, hs[p], next, size);
      forall k :: p0 + (q - p) <= k < |hs0| ==> SameHeader(base, m0, m', hs0[k])
  {
    hide Index, Next, Size;
    var m' := SetHeader(base, m, hs[p], next, size);
    OthersUnchanged(base, m, hs, p, next, size);
    forall k | p0 + (q - p) <= k < |hs0|
      ensures SameHeader(base, m0, m', hs0[k])
    {
      assert |hs[p..]| == |hs0[p0..]|;
      SuffixAt(hs, p, hs0, p0, k - p0);
      assert SameHeader(base, m, m', hs[p + (k - p0)]);
      assert SameHeader(base, m0, m, hs0[k]);
    }
  }

  lemma UsedIsLive(base: nat, m: seq<nat>, hs: seq<nat>, k: nat)
    requires Spaced(base, m, hs) && k < |hs|
    ensures Used(base, m, hs[k]) <==> hs[k] in Live(base, m, hs)
  {}

  // Once everything is freed, a search from the start finds a block of `room` bytes exactly when it fits the heap
  // with the first header and the sentinel, however the heap was cut up before.
  lemma EverythingFreed(base: nat, m: seq<nat>, hs: seq<nat>, room: nat)
    requires Tiled(base, m, hs) && Live(base, m, hs) == map[]
    ensures CanServe(base, m, hs, 0, room) <==> room + 2 * HEADER <= 4 * |m|
  {
    hide Index, Size, Next, Holds;
    var last := |hs| - 1;
    forall k | 0 <= k < last
      ensures !Used(base, m, hs[k])
    {
      UsedIsLive(base, m, hs, k);
    }
    assert FreeRun(base, m, hs, 0, last);
    if room + 2 * HEADER <= 4 * |m| { assert Serves(base, m, hs, 0, last, room); }
    if CanServe(base, m, hs, 0, room) {
      var i: nat, j: nat :| Serves(base, m, hs, i, j, room);
      Apart(base, m, hs, 0, i);
      Apart(base, m, hs, j, last);
    }
  }
}

/**
 heap_init, malloc and free of software/lib/malloc.c, changing the words of the heap in place. `blocks` is the
 ghost list of headers reached by `next` from the start of the heap.
 */
module Allocator {
  import opened HeapModel
  import opened HeapSteps
  import opened HeapSearch

  class Heap {
    const base: nat
    const mem: array<nat>
    var lastFree: nat
    ghost var blocks: seq<nat>
    ghost var at: nat

    // last_free is always the first header or a block in use, so a search never starts inside a run.
    ghost predicate Valid()
      reads this, mem
    {
      && Tiled(base, mem[..], blocks)
      && at < |blocks| - 1 && blocks[at] == lastFree
      && (at == 0 || Used(base, mem[..], lastFree))
    }

    ghost function LiveBlocks(): map<nat, int>
      requires Valid()
      reads this, mem
    {
      Live(base, mem[..], blocks)
    }

    // heap_init, for a 4-aligned zone with room for two headers. first_free is always `base`.
    constructor Init(zone: array<nat>, address: nat)
      requires address > 0 && address % 4 == 0 && zone.Length >= 4 && address + 4 * zone.Length <= WORD
      modifies zone
      ensures Valid() && mem == zone && base == address && at == 0
      ensures LiveBlocks() == map[]
      ensures blocks == [address, address + 4 * zone.Length - HEADER]
    {
      base, mem := address, zone;
      lastFree := address;
      at := 0;
      new;
      var q := base + 4 * mem.Length - HEADER;
      ghost var m := mem[..];
      InitialIsTiled(base, m);
      SetBlock(base, q, 4 * mem.Length - 2 * HEADER);
      SetBlock(q, 0, 0);
      blocks := [base, q];
      assert mem[..] == InitialMemory(base, m);
    }

    // Write the header at address a.
    method SetBlock(a: nat, next: nat, size: nat)
      requires Holds(base, mem[..], a)
      modifies mem
      ensures mem[..] == SetHeader(base, old(mem[..]), a, next, size)
    {
      mem[Index(base, a)] := next;
      mem[Index(base, a) + 1] := size;
    }

    method NextOf(a: nat) returns (next: nat)
      requires Holds(base, mem[..], a)
      ensures next == Next(base, mem[..], a)
    {
      next := mem[Index(base, a)];
    }

    method SizeOf(a: nat) returns (size: nat)
      requires Holds(base, mem[..], a)
      ensures size == Size(base, mem[..], a)
    {
      size := mem[Index(base, a) + 1];
    }

    method Free(ptr: nat)
      requires Valid() && ptr >= HEADER && ptr - HEADER in LiveBlocks()
      modifies this, mem
      ensures Valid() && at == 0 && blocks == old(blocks)
      ensures LiveBlocks() == old(LiveBlocks()) - {ptr - HEADER}
      ensures SameLiveWords(base, old(mem[..]), mem[..], old(LiveBlocks()) - {ptr - HEADER})
    {
      hide Live, SameLiveWords;
      var p := ptr - HEADER;
      ghost var i := LiveBlock(base, mem[..], blocks, p);
      FreeKeepsTiling(base, mem[..], blocks, p);
      ghost var m := mem[..];
      var size := SizeOf(p);
      mem[Index(base, p) + 1] := size - size % 2;
      assert mem[..] == FreedMemory(base, m, p);
      lastFree := base;
      at := 0;
    }

    // A client writes a word of a block it owns.
    method Store(ptr: nat, i: nat, v: nat)
      requires Valid() && ptr >= HEADER && ptr - HEADER in LiveBlocks() && i < mem.Length
      requires ptr <= base + 4 * i < ptr + LiveBlocks()[ptr - HEADER]
      modifies mem
      ensures Valid() && mem[i] == v
      ensures LiveBlocks() == old(LiveBlocks())
      ensures SameLiveWords(base, old(mem[..]), mem[..], old(LiveBlocks()) - {ptr - HEADER})
    {
      ghost var m := mem[..];
      StoreKeepsTiling(base, m, blocks, ptr - HEADER, i, v);
      mem[i] := v;
      assert mem[..] == m[i := v];
      UsedLast(base, m, mem[..], blocks, at);
    }

    // malloc: 0 exactly when no run of adjacent free blocks from last_free on is large enough; otherwise a new live
    // block of the aligned size at the start of the first such run, where the next search starts. No word of a live
    // block changes. For the few requests whose size and header wrap, a block is handed out that is not marked as in
    // use: either the heap is as if nothing had been asked for, or the list now runs through a header that overlaps
    // the block's own.
    method Malloc(size: nat) returns (ptr: nat)
      requires Valid() && size < WORD
      modifies this, mem
      ensures ptr == 0 <==> !CanServe(base, old(mem[..]), old(blocks), old(at), Room(size))
      ensures ptr == 0 ==> Valid() && LiveBlocks() == old(LiveBlocks()) && lastFree == old(lastFree) && at == old(at)
      ensures ptr != 0 ==> ptr >= HEADER && ptr - HEADER !in old(LiveBlocks())
      ensures ptr != 0 ==> lastFree == ptr - HEADER && at < |blocks| && blocks[at] == lastFree
      ensures ptr != 0 ==> (exists i: nat ::
        && i < |old(blocks)| && old(blocks)[i] == ptr - HEADER
        && FirstFit(base, old(mem[..]), old(blocks), old(at), i, Room(size)))
      ensures ptr != 0 ==> ptr - HEADER >= old(lastFree)
      ensures ptr != 0 && old(lastFree in LiveBlocks()) ==> ptr - HEADER > old(lastFree)
      ensures ptr != 0 && !Wraps(size) ==> Valid() && LiveBlocks() == old(LiveBlocks())[ptr - HEADER := Align4(size)]
      ensures ptr != 0 && Wraps(size) ==> Holds(base, mem[..], ptr - HEADER) && !Used(base, mem[..], ptr - HEADER)
      ensures ptr != 0 && Wraps(size) && Room(size) == 0 ==>
        Tiled(base, mem[..], blocks) && Live(base, mem[..], blocks) == old(LiveBlocks())
      ensures ptr != 0 && Wraps(size) && Room(size) == 4 ==> Next(base, mem[..], ptr - HEADER) == ptr - HEADER + 4
      ensures SameLiveWords(base, old(mem[..]), mem[..], old(LiveBlocks()))
    {
      hide Index, Next, Size, Live, SameLiveWords, Tiled, CanServe, Used, FirstFit;
      var need := Align4(size);
      WrappingRequests(size);
      ghost var m0, hs0, from := mem[..], blocks, at;
      var found, q, next, place := Search(InWord(need + HEADER));
      if !found {
        return 0;
      }
      TiledIsSpaced(base, m0, hs0);
      FirstFitIsFurther(base, m0, hs0, from, place, Room(size));
      assert old(blocks)[place] == q;
      ghost var m1 := mem[..];
      NotLive(base, m1, blocks, q);
      Split(q, next, need);
      SameWordsTrans(base, m0, m1, mem[..], old(LiveBlocks()));
      return q + HEADER;
    }

    // Without a free between them, later blocks lie further on.
    method MallocTwice(size1: nat, size2: nat) returns (ptr1: nat, ptr2: nat)
      requires Valid() && size1 < WORD && size2 < WORD && !Wraps(size1)
      modifies this, mem
      ensures ptr1 != 0 && ptr2 != 0 ==> ptr1 < ptr2
      ensures ptr1 == 0 && ptr2 != 0 ==> old(lastFree) <= ptr2 - HEADER
    {
      hide Live, SameLiveWords, CanServe, FirstFit, Tiled;
      ptr1 := Malloc(size1);
      ptr2 := Malloc(size2);
    }

    // When the last live block is freed, the next request succeeds exactly when it and 24 bytes of headers fit the
    // heap, however the heap was cut up before.
    method FreeLastThenMalloc(ptr: nat, size: nat) returns (r: nat)
      requires Valid() && ptr >= HEADER && LiveBlocks().Keys == {ptr - HEADER} && size < WORD
      modifies this, mem
      ensures r != 0 <==> Room(size) + 2 * HEADER <= 4 * mem.Length
      ensures !Wraps(size) ==> (r != 0 <==> Align4(size) + 3 * HEADER <= 4 * mem.Length)
      ensures r == 0 ==> Valid() && LiveBlocks() == map[]
      ensures r != 0 && !Wraps(size) ==> Valid() && r >= HEADER && LiveBlocks() == map[r - HEADER := Align4(size)]
    {
      hide Live, SameLiveWords, CanServe, Tiled;
      Free(ptr);
      assert LiveBlocks() == map[];
      WrappingRequests(size);
      EverythingFreed(base, mem[..], blocks, Room(size));
      r := Malloc(size);
    }

    // Lines 40-46, on the free block at position `at`.
    method Split(q: nat, next: nat, need: nat)
      requires Tiled(base, mem[..], blocks) && at < |blocks| - 1 && blocks[at] == q && blocks[at + 1] == next
      requires Holds(base, mem[..], q) && !Used(base, mem[..], q)
      requires need < WORD && need % 4 == 0 && q + HEADER + InWord(need + HEADER) <= next
      modifies this, mem
      ensures need + HEADER < WORD ==> Valid() && LiveBlocks() == old(Live(base, mem[..], blocks))[q := need]
      ensures lastFree == q && at == old(at) < |blocks| && blocks[at] == q
      ensures need + HEADER >= WORD ==> Holds(base, mem[..], q) && !Used(base, mem[..], q)
      ensures need + HEADER == WORD ==>
        Tiled(base, mem[..], blocks) && Live(base, mem[..], blocks) == old(Live(base, mem[..], blocks))
      ensures need + HEADER == WORD + 4 ==> Next(base, mem[..], q) == q + 4
      ensures SameLiveWords(base, old(mem[..]), mem[..], old(Live(base, mem[..], blocks)))
    {
      hide Index, Next, Size, SameLiveWords, Live, Spaced, Linked, SetHeader, LowBitSet, SizeLeft, Tiled, Used,
        Inserted, InWord, Holds;
      ghost var m, hs := mem[..], blocks;
      SplitPlace(base, m, hs, at, need);
      FourIsEven(need);
      SizeLeftIsStale(need);
      var n := InWord(q + HEADER + need);
      lastFree := q;
      var size := LowBitSet(need);
      SetBlock(q, n, size);
      StillHolds(base, m, mem[..], n);
      SetBlock(n, next, SizeLeft(size, need));
      if need + HEADER < WORD { blocks := Inserted(hs, at, n); }
      InsertedAfter(hs, at, n);
      AfterSplit(this, m, hs, at, need, n);
    }

    // Lines 17-35. When found, `at` is the position of the merged free block q, large enough to split;
    // otherwise the last_free position is as before.
    method Search(room: nat) returns (found: bool, q: nat, next: nat, ghost place: nat)
      requires Valid()
      modifies this, mem
      ensures found <==> CanServe(base, old(mem[..]), old(blocks), old(at), room)
      ensures Tiled(base, mem[..], blocks) && at < |blocks| - 1
      ensures Live(base, mem[..], blocks) == old(LiveBlocks())
      ensures SameLiveWords(base, old(mem[..]), mem[..], old(LiveBlocks()))
      ensures !found ==> Valid() && at == old(at)
      ensures lastFree == old(lastFree)
      ensures found ==> FirstFit(base, old(mem[..]), old(blocks), old(at), place, room) && old(blocks)[place] == q
      ensures found ==> blocks[at] == q && blocks[at + 1] == next && Holds(base, mem[..], q) && !Used(base, mem[..], q)
      ensures found ==> q + HEADER + room <= next
    {
      hide Index, Next, Size, Live, SameLiveWords, NoneBefore, SameHeader, SetHeader, Linked, CanServe, Used, Holds,
        Searching, Tiled, Spaced, FreeRun, Serves, Merged, Sentinel, FirstFit;
      ghost var m0, hs0, from := mem[..], blocks, at;
      var p: nat := lastFree;
      q := p;
      ghost var p0: nat, pi: nat := at, at;
      SearchStarts(base, m0, hs0, from, room);
      SearchingFacts(base, m0, hs0, mem[..], blocks, from, p0, pi, room);
      CurrentBlock(base, m0, hs0, mem[..], blocks, from, p0, pi, room);
      var link := NextOf(p);
      while link != 0
        invariant Searching(base, m0, hs0, mem[..], blocks, from, p0, pi, room)
        invariant Holds(base, mem[..], p) && pi < |blocks| && blocks[pi] == p && link == Next(base, mem[..], p)
        invariant q == p || Used(base, mem[..], p) || link == 0
        invariant at == from && lastFree == hs0[from]
        decreases |hs0| - p0
      {
        SearchingFacts(base, m0, hs0, mem[..], blocks, from, p0, pi, room);
        CurrentBlock(base, m0, hs0, mem[..], blocks, from, p0, pi, room);
        p, q, found, p0, pi := MergeNextRun(p, q, m0, hs0, p0, pi, room);
        if found {
          return true, q, p, p0;
        }
        SearchingFacts(base, m0, hs0, mem[..], blocks, from, p0, pi, room);
        CurrentBlock(base, m0, hs0, mem[..], blocks, from, p0, pi, room);
        link := NextOf(p);
      }
      SearchingFacts(base, m0, hs0, mem[..], blocks, from, p0, pi, room);
      EndOfSearch(base, m0, hs0, mem[..], blocks, from, p0, pi, room);
      return false, 0, 0, 0;
    }

    // The body of the outer loop: skip blocks in use, merge the run that follows, test its size. When it
    // fits, `at` is set to the run's position.
    method MergeNextRun(start: nat, q0: nat, ghost m0: seq<nat>, ghost hs0: seq<nat>,
                        ghost s0: nat, ghost si: nat, room: nat)
      returns (p: nat, q: nat, fits: bool, ghost p0: nat, ghost pi: nat)
      requires Searching(base, m0, hs0, mem[..], blocks, at, s0, si, room)
      requires si < |blocks| - 1 && blocks[si] == start && Holds(base, mem[..], start)
      requires q0 == start || Used(base, mem[..], start)
      modifies mem, this`blocks, this`at
      ensures Tiled(base, mem[..], blocks) && Live(base, mem[..], blocks) == Live(base, m0, hs0)
      ensures SameLiveWords(base, m0, mem[..], Live(base, m0, hs0))
      ensures fits ==> CanServe(base, m0, hs0, old(at), room)
      ensures fits ==> FirstFit(base, m0, hs0, old(at), p0, room) && hs0[p0] == q
      ensures fits ==> at < |blocks| - 1 && blocks[at] == q && blocks[at + 1] == p
      ensures fits ==> Holds(base, mem[..], q) && !Used(base, mem[..], q) && q + HEADER + room <= p
      ensures !fits ==> at == old(at) && Searching(base, m0, hs0, mem[..], blocks, at, p0, pi, room) && s0 < p0
      ensures !fits ==> blocks[pi] == p && Holds(base, mem[..], p)
      ensures !fits ==> pi == |blocks| - 1 || Used(base, mem[..], p)
    {
      hide Index, Next, Size, Live, SameLiveWords, NoneBefore, SameHeader, SetHeader, Linked, CanServe, Used, Holds,
        Searching, Tiled, Spaced, FreeRun, Serves, Merged, Sentinel, FirstFit;
      p, q, p0, pi := SkipUsed(start, q0, m0, hs0, s0, si, room);
      ghost var qi := pi;
      SearchingFacts(base, m0, hs0, mem[..], blocks, at, p0, pi, room);
      p, pi := SkipFree(p, m0, hs0, p0, pi, room);
      ghost var m, hs := mem[..], blocks;
      MergeRun(base, m0, hs0, m, hs, at, p0, qi, pi, room);
      SetBlock(q, p, p - q - HEADER);
      blocks := Merged(hs, qi, pi);
      if p - q - HEADER >= room {
        RunFound(base, m0, hs0, at, p0, p0 + (pi - qi), room);
        at := qi;
        return p, q, true, p0, pi;
      }
      p0, pi := p0 + (pi - qi), qi + 1;
      fits := false;
      CurrentBlock(base, m0, hs0, mem[..], blocks, at, p0, pi, room);
      SearchingFacts(base, m0, hs0, mem[..], blocks, at, p0, pi, room);
    }

    // Lines 21-24.
    method SkipUsed(start: nat, q0: nat, ghost m0: seq<nat>, ghost hs0: seq<nat>,
                    ghost s0: nat, ghost si: nat, ghost room: nat)
      returns (p: nat, q: nat, ghost p0: nat, ghost pi: nat)
      requires Searching(base, m0, hs0, mem[..], blocks, at, s0, si, room)
      requires si < |blocks| - 1 && blocks[si] == start && Holds(base, mem[..], start)
      requires q0 == start || Used(base, mem[..], start)
      ensures Searching(base, m0, hs0, mem[..], blocks, at, p0, pi, room)
      ensures s0 <= p0 && si <= pi < |blocks| - 1 && blocks[pi] == p == q && Holds(base, mem[..], p)
      ensures !Used(base, mem[..], p)
    {
      hide Index, Next, Size, Live, SameLiveWords, NoneBefore, SameHeader, Linked, Searching, Tiled, Spaced, Holds;
      p, q, p0, pi := start, q0, s0, si;
      var size := SizeOf(p);
      while size % 2 == 1
        invariant Searching(base, m0, hs0, mem[..], blocks, at, p0, pi, room)
        invariant s0 <= p0 && si <= pi < |blocks| - 1 && blocks[pi] == p && Holds(base, mem[..], p)
        invariant q == p || Used(base, mem[..], p)
        invariant size == Size(base, mem[..], p)
        decreases |blocks| - pi
      {
        CurrentBlock(base, m0, hs0, mem[..], blocks, at, p0, pi, room);
        PassUsed(base, m0, hs0, mem[..], blocks, at, p0, pi, room);
        p := NextOf(p);
        q := p;
        p0, pi := p0 + 1, pi + 1;
        CurrentBlock(base, m0, hs0, mem[..], blocks, at, p0, pi, room);
        size := SizeOf(p);
      }
    }

    // Lines 25-26.
    method SkipFree(start: nat, ghost m0: seq<nat>, ghost hs0: seq<nat>, ghost s0: nat, ghost si: nat, ghost room: nat)
      returns (p: nat, ghost pi: nat)
      requires Searching(base, m0, hs0, mem[..], blocks, at, s0, si, room)
      requires si < |blocks| - 1 && blocks[si] == start && Holds(base, mem[..], start)
      requires !Used(base, mem[..], start)
      ensures si < pi < |blocks| && blocks[pi] == p
      ensures FreeRun(base, mem[..], blocks, si, pi)
      ensures pi == |blocks| - 1 || Used(base, mem[..], p)
    {
      hide Index, Next, Size, Spaced, Linked, Searching, Tiled, Holds;
      SearchingFacts(base, m0, hs0, mem[..], blocks, at, s0, si, room);
      p, pi := start, si;
      var size := SizeOf(p);
      var next := NextOf(p);
      NextInTiling(base, mem[..], blocks, pi);
      while size % 2 != 1 && next != 0
        invariant si <= pi < |blocks| && blocks[pi] == p && Holds(base, mem[..], p)
        invariant forall k :: si <= k < pi ==> !Used(base, mem[..], blocks[k])
        invariant size == Size(base, mem[..], p) && next == Next(base, mem[..], p)
        invariant pi == si ==> !Used(base, mem[..], p) && next != 0
        invariant next == 0 <==> pi == |blocks| - 1
        decreases |blocks| - pi
      {
        NextInTiling(base, mem[..], blocks, pi);
        p := next;
        pi := pi + 1;
        NextInTiling(base, mem[..], blocks, pi);
        size := SizeOf(p);
        next := NextOf(p);
      }
    }
  }

  lemma AfterTheFirst(need: nat)
    requires need < WORD < need + HEADER && need % 4 == 0
    ensures need + HEADER == WORD + 4
  {}

  // What a split leaves, for requests that do not wrap and for those that do.
  lemma AfterSplit(heap: Heap, m: seq<nat>, hs: seq<nat>, i: nat, need: nat, n: nat)
    requires Tiled(heap.base, m, hs) && heap.at == i < |hs| - 1
    requires Holds(heap.base, m, hs[i]) && !Used(heap.base, m, hs[i])
    requires need < WORD && need % 4 == 0 && Holds(heap.base, m, n) && n + HEADER <= hs[i + 1]
    requires n == hs[i] + HEADER + need - if need + HEADER < WORD then 0 else WORD
    requires heap.mem[..] ==
      SetHeader(heap.base, SetHeader(heap.base, m, hs[i], n, need + 1), n, hs[i + 1], STALE_SIZE)
    requires heap.lastFree == hs[i]
    requires heap.blocks == if need + HEADER < WORD then Inserted(hs, i, n) else hs
    ensures need + HEADER < WORD ==> heap.Valid() && heap.LiveBlocks() == Live(heap.base, m, hs)[hs[i] := need]
    ensures need + HEADER >= WORD ==> Holds(heap.base, heap.mem[..], hs[i]) && !Used(heap.base, heap.mem[..], hs[i])
    ensures need + HEADER == WORD ==>
      Tiled(heap.base, heap.mem[..], hs) && Live(heap.base, heap.mem[..], hs) == Live(heap.base, m, hs)
    ensures need + HEADER == WORD + 4 ==> Next(heap.base, heap.mem[..], hs[i]) == hs[i] + 4
    ensures SameLiveWords(heap.base, m, heap.mem[..], Live(heap.base, m, hs))
  {
    hide Index, Next, Size, Live, SameLiveWords, Spaced, Linked, SetHeader, Used;
    var base, m' := heap.base, heap.mem[..];
    assert Holds(base, m', hs[i]);
    hide Holds;
    if need + HEADER < WORD {
      SplitKeepsTiling(base, m, hs, i, need);
      assert hs[i] in Live(base, m', heap.blocks);
      LiveIsUsed(base, m', heap.blocks, hs[i]);
    } else {
      WrappedSplit(base, m, hs, i, need);
      if n == hs[i] {
        ForgottenSplit(base, m, hs, i, need);
      } else {
        assert n == hs[i] + 4 by { AfterTheFirst(need); }
        OverlappingSplit(base, m, hs[i], hs[i + 1], need + 1);
      }
    }
  }

  lemma NextInTiling(base: nat, m: seq<nat>, hs: seq<nat>, k: nat)
    requires Tiled(base, m, hs) && k < |hs|
    ensures Holds(base, m, hs[k]) && (Next(base, m, hs[k]) == 0 <==> k == |hs| - 1)
    ensures k < |hs| - 1 ==> Next(base, m, hs[k]) == hs[k + 1]
  {
    hide Index, Next, Size;
    if k < |hs| - 1 {
      assert Linked(base, m, hs[k], hs[k + 1]);
      Apart(base, m, hs, 0, k + 1);
    }
  }

  // When the search reaches the sentinel, no run was large enough and last_free is where it was.
  lemma EndOfSearch(base: nat, m0: seq<nat>, hs0: seq<nat>, m: seq<nat>, hs: seq<nat>,
                    from: nat, p0: nat, p: nat, room: nat)
    requires Searching(base, m0, hs0, m, hs, from, p0, p, room)
    requires Holds(base, m, hs[p]) && Next(base, m, hs[p]) == 0
    requires from < |hs0| - 1 && (from == 0 || Used(base, m0, hs0[from]))
    ensures !CanServe(base, m0, hs0, from, room)
    ensures from < |hs| - 1 && (from == 0 || Used(base, m, hs[from]))
  {
    hide Index, Next, Size, SameLiveWords;
    CurrentBlock(base, m0, hs0, m, hs, from, p0, p, room);
    if from > 0 { assert hs0[from] in Live(base, m0, hs0); }
  }

  lemma UsedLast(base: nat, m: seq<nat>, m': seq<nat>, hs: seq<nat>, at: nat)
    requires Spaced(base, m, hs) && Spaced(base, m', hs) && at < |hs|
    requires Live(base, m, hs) == Live(base, m', hs)
    ensures Used(base, m, hs[at]) ==> Used(base, m', hs[at])
  {
    if Used(base, m, hs[at]) { assert hs[at] in Live(base, m, hs); }
  }

  lemma SearchingFacts(base: nat, m0: seq<nat>, hs0: seq<nat>, m: seq<nat>, hs: seq<nat>,
                       from: nat, p0: nat, p: nat, room: nat)
    requires Searching(base, m0, hs0, m, hs, from, p0, p, room)
    ensures Tiled(base, m0, hs0) && Spaced(base, m0, hs0) && Tiled(base, m, hs) && Spaced(base, m, hs)
    ensures Live(base, m, hs) == Live(base, m0, hs0) && SameLiveWords(base, m0, m, Live(base, m0, hs0))
    ensures from <= p < |hs| && from <= p0 < |hs0| && hs[from] == hs0[from]
    ensures NoneBefore(base, m0, hs0, from, p0, room)
  {}

  lemma RunFound(base: nat, m: seq<nat>, hs: seq<nat>, from: nat, i: nat, j: nat, room: nat)
    requires Spaced(base, m, hs) && from <= i < |hs| && Serves(base, m, hs, i, j, room)
    requires NoneBefore(base, m, hs, from, i, room)
    ensures CanServe(base, m, hs, from, room) && FirstFit(base, m, hs, from, i, room)
  {}

  lemma NotLive(base: nat, m: seq<nat>, hs: seq<nat>, h: nat)
    requires Tiled(base, m, hs) && Holds(base, m, h) && !Used(base, m, h)
    ensures h !in Live(base, m, hs)
  {}

  lemma LiveIsUsed(base: nat, m: seq<nat>, hs: seq<nat>, h: nat)
    requires Tiled(base, m, hs) && h in Live(base, m, hs)
    ensures Holds(base, m, h) && Used(base, m, h)
  {}
}

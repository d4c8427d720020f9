/**
 core_list_mergesort, core_list_remove and core_list_undo_remove of coremark/core_list_join.c, relinking the
 `next` pointers of existing nodes. A list is described by ghost positions into the sequence of its original
 nodes, and sorting is proved against MergeSortSpec.dfy.
 */
module ListJoin {
  import opened MergeSortSpec

  class Node<T> {
    var next: Node?<T>
    var info: T

    constructor (info: T)
      ensures next == null && this.info == info
    {
      next, this.info := null, info;
    }
  }

  ghost predicate Positions<T>(nodes: seq<Node<T>>, s: seq<nat>) {
    forall k :: 0 <= k < |s| ==> s[k] < |nodes|
  }

  ghost predicate Distinct<X(!new)>(s: seq<X>) {
    forall i, j :: 0 <= i < j < |s| ==> s[i] != s[j]
  }

  ghost predicate DistinctNodes<T>(s: seq<Node<T>>) {
    forall i, j :: 0 <= i < j < |s| ==> s[i] != s[j]
  }

  // The `next` pointers of all nodes.
  ghost function Links<T>(nodes: seq<Node<T>>): (l: seq<Node?<T>>)
    reads nodes
    ensures |l| == |nodes|
  {
    seq(|nodes|, k requires 0 <= k < |nodes| reads nodes => nodes[k].next)
  }

  // Each node of s points to the following one.
  ghost predicate Chained<T>(nodes: seq<Node<T>>, l: seq<Node?<T>>, s: seq<nat>)
    requires Positions(nodes, s) && |l| == |nodes|
  {
    forall k :: 0 <= k < |s| - 1 ==> l[s[k]] == nodes[s[k + 1]]
  }

  // ... and the last one to nothing.
  ghost predicate Terminated<T>(nodes: seq<Node<T>>, l: seq<Node?<T>>, s: seq<nat>)
    requires Positions(nodes, s) && |l| == |nodes|
  {
    Chained(nodes, l, s) && (s != [] ==> l[s[|s| - 1]] == null)
  }

  ghost function HeadOf<T>(nodes: seq<Node<T>>, s: seq<nat>): Node?<T>
    requires Positions(nodes, s)
  {
    if s == [] then null else nodes[s[0]]
  }

  ghost function Infos<T>(nodes: seq<Node<T>>): (v: seq<T>)
    reads nodes
    ensures |v| == |nodes|
  {
    seq(|nodes|, k requires 0 <= k < |nodes| reads nodes => nodes[k].info)
  }

  // ---------------------------------------------------------------- one step of a merge

  // The merge so far: `out` is linked up to `tail`; `a` is what is left of the left run, `b` all that follows
  // it from the right run on.
  ghost predicate Merging<T>(nodes: seq<Node<T>>, l: seq<Node?<T>>, out: seq<nat>, a: seq<nat>, b: seq<nat>,
                             head: Node?<T>, tail: Node?<T>)
  {
    && |l| == |nodes|
    && Positions(nodes, out) && Positions(nodes, a) && Positions(nodes, b)
    && Distinct(out + a + b)
    && Chained(nodes, l, out) && Chained(nodes, l, a) && Terminated(nodes, l, b)
    && head == HeadOf(nodes, out)
    && tail == (if out == [] then null else nodes[out[|out| - 1]])
  }

  // Linking the end of `out` to the node x.
  ghost function LinkTo<T>(nodes: seq<Node<T>>, l: seq<Node?<T>>, out: seq<nat>, x: nat): seq<Node?<T>>
    requires |l| == |nodes| && Positions(nodes, out) && x < |nodes|
  {
    if out == [] then l else l[out[|out| - 1] := nodes[x]]
  }

  lemma LastIsElsewhere(out: seq<nat>, a: seq<nat>, b: seq<nat>)
    requires Distinct(out + a + b) && out != []
    ensures var t := out[|out| - 1];
      && t !in a && t !in b && (forall k :: 0 <= k < |out| - 1 ==> out[k] != t)
  {
    var all := out + a + b;
    assert all[|out| - 1] == out[|out| - 1];
    forall k | 0 <= k < |a| ensures a[k] != out[|out| - 1] { assert all[|out| + k] == a[k]; }
    forall k | 0 <= k < |b| ensures b[k] != out[|out| - 1] { assert all[|out| + |a| + k] == b[k]; }
    forall k | 0 <= k < |out| - 1 ensures out[k] != out[|out| - 1] { assert all[k] == out[k]; }
  }

  lemma LinkedStates<T>(nodes: seq<Node<T>>, l: seq<Node?<T>>, out: seq<nat>, a: seq<nat>, b: seq<nat>,
                        head: Node?<T>, tail: Node?<T>, x: nat)
    requires Merging(nodes, l, out, a, b, head, tail) && x < |nodes|
    ensures var l' := LinkTo(nodes, l, out, x);
      Chained(nodes, l', out + [x]) && Chained(nodes, l', a) && Terminated(nodes, l', b)
  {
    if out != [] { LastIsElsewhere(out, a, b); }
  }

  lemma MergingFacts<T>(nodes: seq<Node<T>>, l: seq<Node?<T>>, out: seq<nat>, a: seq<nat>, b: seq<nat>,
                        head: Node?<T>, tail: Node?<T>)
    requires Merging(nodes, l, out, a, b, head, tail)
    ensures Positions(nodes, out) && Positions(nodes, a) && Positions(nodes, b) && |l| == |nodes|
    ensures head == HeadOf(nodes, out) && tail == (if out == [] then null else nodes[out[|out| - 1]])
    ensures |a| > 1 ==> l[a[0]] == nodes[a[1]]
    ensures b != [] ==> l[b[0]] == HeadOf(nodes, b[1..])
  {}

  lemma TakeLeft<T>(nodes: seq<Node<T>>, l: seq<Node?<T>>, out: seq<nat>, a: seq<nat>, b: seq<nat>,
                    head: Node?<T>, tail: Node?<T>)
    requires Merging(nodes, l, out, a, b, head, tail) && a != []
    ensures Merging(nodes, LinkTo(nodes, l, out, a[0]), out + [a[0]], a[1..], b,
                    if out == [] then nodes[a[0]] else head, nodes[a[0]])
  {
    LinkedStates(nodes, l, out, a, b, head, tail, a[0]);
    assert out + [a[0]] + a[1..] + b == out + a + b;
  }

  lemma TakeRight<T>(nodes: seq<Node<T>>, l: seq<Node?<T>>, out: seq<nat>, a: seq<nat>, b: seq<nat>,
                     head: Node?<T>, tail: Node?<T>)
    requires Merging(nodes, l, out, a, b, head, tail) && b != []
    ensures Merging(nodes, LinkTo(nodes, l, out, b[0]), out + [b[0]], a, b[1..],
                    if out == [] then nodes[b[0]] else head, nodes[b[0]])
  {
    LinkedStates(nodes, l, out, a, b, head, tail, b[0]);
    DistinctRotate(out, a, b);
  }

  lemma DistinctRotate(out: seq<nat>, a: seq<nat>, b: seq<nat>)
    requires b != [] && Distinct(out + a + b)
    ensures Distinct(out + [b[0]] + a + b[1..])
  {
    var s, t := out + a + b, out + [b[0]] + a + b[1..];
    forall i, j | 0 <= i < j < |t|
      ensures t[i] != t[j]
    {
      assert t[i] == s[Source(|out|, |a|, i)] && t[j] == s[Source(|out|, |a|, j)];
    }
  }

  // Where the i-th element of the rotated sequence comes from.
  function Source(n: nat, m: nat, i: nat): nat {
    if i < n then i else if i == n then n + m else if i <= n + m then i - 1 else i
  }

  // Lines 471-477.
  method Append<T>(nodes: seq<Node<T>>, ghost out: seq<nat>, ghost x: nat, head: Node?<T>, tail: Node?<T>, e: Node<T>)
    returns (head': Node<T>, tail': Node<T>)
    requires DistinctNodes(nodes) && Positions(nodes, out) && x < |nodes| && e == nodes[x]
    requires head == HeadOf(nodes, out) && tail == (if out == [] then null else nodes[out[|out| - 1]])
    modifies (set n | n in nodes)`next
    ensures Infos(nodes) == old(Infos(nodes))
    ensures Links(nodes) == LinkTo(nodes, old(Links(nodes)), out, x)
    ensures tail' == e && head' == if out == [] then e else head
  {
    ghost var l := Links(nodes);
    head' := e;
    if tail != null {
      tail.next := e;
      head' := head;
    }
    tail' := e;
    assert Links(nodes) == LinkTo(nodes, l, out, x);
  }

  // ---------------------------------------------------------------- merging two runs

  // Line 442: q steps `insize` places along from p, or off the end.
  method StepAlong<T>(nodes: seq<Node<T>>, ghost s: seq<nat>, p: Node<T>, insize: nat)
    returns (q: Node?<T>, psize: nat)
    requires Positions(nodes, s) && Terminated(nodes, Links(nodes), s) && s != [] && p == nodes[s[0]] && insize > 0
    ensures psize == |Take(s, insize)| && q == HeadOf(nodes, Drop(s, insize))
  {
    q := p;
    psize := 0;
    var i := 0;
    while i < insize
      invariant psize == i <= insize && i < |s|
      invariant q == nodes[s[i]]
    {
      psize := psize + 1;
      assert i < |s| - 1 ==> Links(nodes)[s[i]] == nodes[s[i + 1]];
      assert Links(nodes)[s[i]] == q.next;
      q := q.next;
      i := i + 1;
      if q == null { break; }
    }
  }

  // What is still to be merged: the rest of the left run with the rest of the right one.
  ghost predicate MergesTo<T>(v: seq<T>, cmp: (T, T) -> int, out: seq<nat>, a: seq<nat>, b: seq<nat>, qsize: nat,
                              merged: seq<nat>, rest: seq<nat>)
  {
    out + Merge(v, cmp, a, Take(b, qsize)) == merged && Drop(b, qsize) == rest
  }

  lemma MergesLeft<T>(v: seq<T>, cmp: (T, T) -> int, out: seq<nat>, a: seq<nat>, b: seq<nat>, qsize: nat,
                      merged: seq<nat>, rest: seq<nat>)
    requires MergesTo(v, cmp, out, a, b, qsize, merged, rest) && a != []
    requires qsize == 0 || b == [] || Le(v, cmp, a[0], b[0])
    ensures MergesTo(v, cmp, out + [a[0]], a[1..], b, qsize, merged, rest)
  {
    var t := Take(b, qsize);
    assert t == [] ==> Merge(v, cmp, a, t) == a && Merge(v, cmp, a[1..], t) == a[1..];
    assert out + ([a[0]] + Merge(v, cmp, a[1..], t)) == out + [a[0]] + Merge(v, cmp, a[1..], t);
    assert a == [a[0]] + a[1..];
  }

  lemma MergesRight<T>(v: seq<T>, cmp: (T, T) -> int, out: seq<nat>, a: seq<nat>, b: seq<nat>, qsize: nat,
                       merged: seq<nat>, rest: seq<nat>)
    requires MergesTo(v, cmp, out, a, b, qsize, merged, rest) && qsize > 0 && b != []
    requires a == [] || !Le(v, cmp, a[0], b[0])
    ensures MergesTo(v, cmp, out + [b[0]], a, b[1..], qsize - 1, merged, rest)
  {
    var t := Take(b, qsize);
    RestOfTake(b, qsize);
    hide Take, Drop;
    assert a == [] ==> Merge(v, cmp, a, t[1..]) == t[1..];
    assert out + ([b[0]] + Merge(v, cmp, a, t[1..])) == out + [b[0]] + Merge(v, cmp, a, t[1..]);
    assert t == [t[0]] + t[1..];
  }

  lemma RestOfTake(b: seq<nat>, n: nat)
    requires n > 0 && b != []
    ensures var t := Take(b, n);
      t != [] && t[0] == b[0] && Take(b[1..], n - 1) == t[1..] && Drop(b[1..], n - 1) == Drop(b, n)
  {}

  // e = p; p = p->next; append e.
  method TakeFromLeft<T>(nodes: seq<Node<T>>, ghost out: seq<nat>, ghost a: seq<nat>, ghost b: seq<nat>,
                         p: Node<T>, head: Node?<T>, tail: Node?<T>)
    returns (p': Node?<T>, head': Node?<T>, tail': Node?<T>)
    requires DistinctNodes(nodes) && Merging(nodes, Links(nodes), out, a, b, head, tail)
    requires a != [] && p == nodes[a[0]]
    modifies (set n | n in nodes)`next
    ensures Infos(nodes) == old(Infos(nodes))
    ensures Merging(nodes, Links(nodes), out + [a[0]], a[1..], b, head', tail')
    ensures |a| > 1 ==> p' == nodes[a[1]]
  {
    hide Merging, Distinct, DistinctNodes, Chained, Terminated;
    ghost var l := Links(nodes);
    MergingFacts(nodes, l, out, a, b, head, tail);
    TakeLeft(nodes, l, out, a, b, head, tail);
    assert l[a[0]] == p.next;
    p' := p.next;
    head', tail' := Append(nodes, out, a[0], head, tail, p);
  }

  method TakeFromRight<T>(nodes: seq<Node<T>>, ghost out: seq<nat>, ghost a: seq<nat>, ghost b: seq<nat>,
                          q: Node<T>, head: Node?<T>, tail: Node?<T>)
    returns (q': Node?<T>, head': Node?<T>, tail': Node?<T>)
    requires DistinctNodes(nodes) && Merging(nodes, Links(nodes), out, a, b, head, tail)
    requires b != [] && q == nodes[b[0]]
    modifies (set n | n in nodes)`next
    ensures Infos(nodes) == old(Infos(nodes))
    ensures Merging(nodes, Links(nodes), out + [b[0]], a, b[1..], head', tail')
    ensures q' == HeadOf(nodes, b[1..])
  {
    hide Merging, Distinct, DistinctNodes, Chained, Terminated;
    ghost var l := Links(nodes);
    MergingFacts(nodes, l, out, a, b, head, tail);
    TakeRight(nodes, l, out, a, b, head, tail);
    assert l[b[0]] == q.next;
    q' := q.next;
    head', tail' := Append(nodes, out, b[0], head, tail, q);
  }

  // Lines 451-478: merge the run a0 with the first `insize` elements of b0.
  method MergeTwo<T>(nodes: seq<Node<T>>, cmp: (T, T) -> int, ghost v: seq<T>,
                     ghost out0: seq<nat>, ghost a0: seq<nat>, ghost b0: seq<nat>,
                     p0: Node?<T>, psize0: nat, q0: Node?<T>, insize: nat, head0: Node?<T>, tail0: Node?<T>)
    returns (head: Node?<T>, tail: Node?<T>, q: Node?<T>)
    requires DistinctNodes(nodes) && v == Infos(nodes)
    requires Merging(nodes, Links(nodes), out0, a0, b0, head0, tail0)
    requires psize0 == |a0| && (a0 != [] ==> p0 == nodes[a0[0]]) && q0 == HeadOf(nodes, b0)
    modifies (set n | n in nodes)`next
    ensures Infos(nodes) == v
    ensures Merging(nodes, Links(nodes), out0 + Merge(v, cmp, a0, Take(b0, insize)), [], Drop(b0, insize), head, tail)
    ensures q == HeadOf(nodes, Drop(b0, insize))
  {
    hide Merge, Distinct, DistinctNodes, Chained, Terminated, Merging, MergesTo, Links, Infos, Take, Drop;
    var p, psize, qsize := p0, psize0, insize;
    q, head, tail := q0, head0, tail0;
    ghost var out, a, b := out0, a0, b0;
    ghost var merged, rest := out0 + Merge(v, cmp, a0, Take(b0, insize)), Drop(b0, insize);
    MergeStarts(v, cmp, out0, a0, b0, insize);
    MergingFacts(nodes, Links(nodes), out, a, b, head, tail);
    while psize > 0 || (qsize > 0 && q != null)
      invariant Infos(nodes) == v
      invariant Merging(nodes, Links(nodes), out, a, b, head, tail)
      invariant Positions(nodes, a) && Positions(nodes, b)
      invariant psize == |a| && (a != [] ==> p == nodes[a[0]]) && q == HeadOf(nodes, b)
      invariant MergesTo(v, cmp, out, a, b, qsize, merged, rest)
      decreases |a| + |b|
    {
      var fromLeft := ChooseLeft(nodes, cmp, v, a, b, p, psize, q, qsize);
      if fromLeft {
        MergesLeft(v, cmp, out, a, b, qsize, merged, rest);
        p, head, tail := TakeFromLeft(nodes, out, a, b, p, head, tail);
        psize := psize - 1;
        out, a := out + [a[0]], a[1..];
      } else {
        MergesRight(v, cmp, out, a, b, qsize, merged, rest);
        q, head, tail := TakeFromRight(nodes, out, a, b, q, head, tail);
        qsize := qsize - 1;
        out, b := out + [b[0]], b[1..];
      }
      MergingFacts(nodes, Links(nodes), out, a, b, head, tail);
    }
    MergeFinished(v, cmp, out, a, b, qsize, merged, rest);
  }

  lemma MergeStarts<T>(v: seq<T>, cmp: (T, T) -> int, out: seq<nat>, a: seq<nat>, b: seq<nat>, qsize: nat)
    ensures MergesTo(v, cmp, out, a, b, qsize, out + Merge(v, cmp, a, Take(b, qsize)), Drop(b, qsize))
  {}

  lemma MergeFinished<T>(v: seq<T>, cmp: (T, T) -> int, out: seq<nat>, a: seq<nat>, b: seq<nat>, qsize: nat,
                         merged: seq<nat>, rest: seq<nat>)
    requires MergesTo(v, cmp, out, a, b, qsize, merged, rest) && a == [] && (qsize == 0 || b == [])
    ensures out == merged && b == rest
  {}

  // Lines 457-469: where the next element comes from.
  method ChooseLeft<T>(nodes: seq<Node<T>>, cmp: (T, T) -> int, ghost v: seq<T>, ghost a: seq<nat>, ghost b: seq<nat>,
                       p: Node?<T>, psize: nat, q: Node?<T>, qsize: nat)
    returns (left: bool)
    requires v == Infos(nodes) && Positions(nodes, a) && Positions(nodes, b)
    requires psize == |a| && (a != [] ==> p == nodes[a[0]]) && q == HeadOf(nodes, b)
    requires psize > 0 || (qsize > 0 && q != null)
    ensures left ==> a != [] && (qsize == 0 || b == [] || Le(v, cmp, a[0], b[0]))
    ensures !left ==> qsize > 0 && b != [] && (a == [] || !Le(v, cmp, a[0], b[0]))
  {
    if psize == 0 {
      left := false;
    } else if qsize == 0 || q == null {
      left := true;
    } else if cmp(p.info, q.info) <= 0 {
      left := true;
    } else {
      left := false;
    }
  }

  // ---------------------------------------------------------------- the passes

  // Lines 433-484: one pass over the list.
  method OnePass<T>(nodes: seq<Node<T>>, cmp: (T, T) -> int, ghost v: seq<T>, ghost s: seq<nat>,
                    list: Node?<T>, insize: nat)
    returns (head: Node?<T>, nmerges: nat)
    requires DistinctNodes(nodes) && v == Infos(nodes) && insize > 0
    requires s != [] && Positions(nodes, s) && Distinct(s) && Terminated(nodes, Links(nodes), s)
    requires list == HeadOf(nodes, s)
    modifies (set n | n in nodes)`next
    ensures Infos(nodes) == v
    ensures Positions(nodes, Pass(v, cmp, s, insize)) && Distinct(Pass(v, cmp, s, insize))
    ensures Terminated(nodes, Links(nodes), Pass(v, cmp, s, insize)) && head == HeadOf(nodes, Pass(v, cmp, s, insize))
    ensures nmerges <= 1 <==> |s| <= 2 * insize
  {
    hide Merge, Distinct, DistinctNodes, Chained, Terminated, Pass, Take, Drop, Infos, Links, Merging, Positions;
    var p, tail := list, null;
    head := null;
    nmerges := 0;
    ghost var out: seq<nat>, rest: seq<nat> := [], s;
    StartOfPass(nodes, Links(nodes), s);
    while p != null
      invariant Infos(nodes) == v
      invariant Positions(nodes, out) && Positions(nodes, rest)
      invariant Merging(nodes, Links(nodes), out, [], rest, head, tail) && p == HeadOf(nodes, rest)
      invariant out + Pass(v, cmp, rest, insize) == Pass(v, cmp, s, insize) && |out| + |rest| == |s|
      invariant nmerges == 0 ==> rest == s
      invariant nmerges == 1 ==> (rest == [] <==> |s| <= 2 * insize)
      invariant nmerges >= 2 ==> |s| > 2 * insize
      decreases |rest|
    {
      ghost var a, b := Take(rest, insize), Drop(rest, insize);
      ghost var next := Drop(b, insize);
      TakeSizes(rest, insize);
      TakeSizes(b, insize);
      var q;
      head, tail, q := MergePair(nodes, cmp, v, out, rest, p, insize, head, tail);
      PassUnfolds(v, cmp, out, rest, insize);
      MergePermutes(v, cmp, a, Take(b, insize));
      out := out + Merge(v, cmp, a, Take(b, insize));
      rest := next;
      p := q;
      nmerges := nmerges + 1;
    }
    EmptyPass(v, cmp, out, insize);
    ghost var l := Links(nodes);
    MergingFacts(nodes, l, out, [], rest, head, tail);
    assert rest == [] && out != [];
    EndsList(nodes, l, out, head, tail);
    CutAfter(nodes, out[|out| - 1], tail);
  }

  method CutAfter<T>(nodes: seq<Node<T>>, ghost x: nat, tail: Node<T>)
    requires DistinctNodes(nodes) && x < |nodes| && tail == nodes[x]
    modifies (set n | n in nodes)`next
    ensures Infos(nodes) == old(Infos(nodes)) && Links(nodes) == old(Links(nodes))[x := null]
  {
    ghost var l := Links(nodes);
    tail.next := null;
    assert Links(nodes) == l[x := null];
  }

  // Lines 439-481: find the end of the left run and merge it with the right one.
  method MergePair<T>(nodes: seq<Node<T>>, cmp: (T, T) -> int, ghost v: seq<T>, ghost out: seq<nat>,
                      ghost rest: seq<nat>, p: Node<T>, insize: nat, head: Node?<T>, tail: Node?<T>)
    returns (head': Node?<T>, tail': Node?<T>, q: Node?<T>)
    requires DistinctNodes(nodes) && v == Infos(nodes) && insize > 0 && rest != []
    requires Merging(nodes, Links(nodes), out, [], rest, head, tail) && p == HeadOf(nodes, rest)
    modifies (set n | n in nodes)`next
    ensures Infos(nodes) == v
    ensures var a, b := Take(rest, insize), Drop(rest, insize);
      && Merging(nodes, Links(nodes), out + Merge(v, cmp, a, Take(b, insize)), [], Drop(b, insize), head', tail')
      && Positions(nodes, Drop(b, insize)) && Positions(nodes, out + Merge(v, cmp, a, Take(b, insize)))
      && q == HeadOf(nodes, Drop(b, insize))
  {
    hide Merge, Distinct, DistinctNodes, Chained, Terminated, Take;
    TakeSizes(rest, insize);
    var psize;
    q, psize := StepAlong(nodes, rest, p, insize);
    SplitRest(nodes, Links(nodes), out, rest, head, tail, insize);
    head', tail', q := MergeTwo(nodes, cmp, v, out, Take(rest, insize), Drop(rest, insize),
                                p, psize, q, insize, head, tail);
  }

  lemma StartOfPass<T>(nodes: seq<Node<T>>, l: seq<Node?<T>>, s: seq<nat>)
    requires |l| == |nodes| && Positions(nodes, s) && Distinct(s) && Terminated(nodes, l, s)
    ensures Merging(nodes, l, [], [], s, null, null) && Positions(nodes, [])
  {
    assert [] + [] + s == s;
  }

  lemma TakeSizes(s: seq<nat>, w: nat)
    ensures |Take(s, w)| + |Drop(s, w)| == |s| && |Drop(s, w)| == (if |s| > w then |s| - w else 0)
    ensures w > 0 && s != [] ==> Take(s, w) != [] && Take(s, w)[0] == s[0]
  {}

  lemma EmptyPass<T>(v: seq<T>, cmp: (T, T) -> int, out: seq<nat>, w: nat)
    requires w > 0
    ensures out + Pass(v, cmp, [], w) == out
  {}

  lemma SplitRest<T>(nodes: seq<Node<T>>, l: seq<Node?<T>>, out: seq<nat>, rest: seq<nat>,
                     head: Node?<T>, tail: Node?<T>, w: nat)
    requires Merging(nodes, l, out, [], rest, head, tail)
    ensures Merging(nodes, l, out, Take(rest, w), Drop(rest, w), head, tail)
  {
    hide Distinct, Chained, Terminated;
    var a, b := Take(rest, w), Drop(rest, w);
    TakeDrop(rest, w);
    assert out + [] + rest == out + a + b;
    SplitChain(nodes, l, rest, w);
  }

  lemma SplitChain<T>(nodes: seq<Node<T>>, l: seq<Node?<T>>, s: seq<nat>, w: nat)
    requires |l| == |nodes| && Positions(nodes, s) && Terminated(nodes, l, s)
    ensures Positions(nodes, Take(s, w)) && Chained(nodes, l, Take(s, w))
    ensures Positions(nodes, Drop(s, w)) && Terminated(nodes, l, Drop(s, w))
  {
    var b := Drop(s, w);
    forall k | 0 <= k < |b| - 1
      ensures l[b[k]] == nodes[b[k + 1]]
    {
      assert l[s[w + k]] == nodes[s[w + k + 1]];
    }
  }

  lemma PassUnfolds<T>(v: seq<T>, cmp: (T, T) -> int, out: seq<nat>, rest: seq<nat>, w: nat)
    requires w > 0 && rest != []
    ensures var a, b := Take(rest, w), Drop(rest, w);
      out + Pass(v, cmp, rest, w) == out + Merge(v, cmp, a, Take(b, w)) + Pass(v, cmp, Drop(b, w), w)
  {
    hide Merge, Take, Drop;
    Reassociate(out, Merge(v, cmp, Take(rest, w), Take(Drop(rest, w), w)), Pass(v, cmp, Drop(Drop(rest, w), w), w));
  }

  lemma Reassociate(x: seq<nat>, y: seq<nat>, z: seq<nat>)
    ensures x + (y + z) == x + y + z
  {}

  // Line 484: cutting the list after the last merged node.
  lemma EndsList<T>(nodes: seq<Node<T>>, l: seq<Node?<T>>, out: seq<nat>, head: Node?<T>, tail: Node?<T>)
    requires Merging(nodes, l, out, [], [], head, tail) && out != []
    ensures Positions(nodes, out) && |l| == |nodes| && out[|out| - 1] < |nodes|
    ensures Terminated(nodes, l[out[|out| - 1] := null], out) && Distinct(out)
  {
    LastIsElsewhere(out, [], []);
    assert out + [] + [] == out;
  }

  // core_list_mergesort. The source dereferences `tail` unconditionally, so the list must not be empty; its
  // own comment on the empty case does not hold. `perm` lists the original positions in the new order. Whatever cmp
  // answers, the sort ends and loses no node; it sorts when cmp is a total preorder.
  method MergeSort<T(!new)>(nodes: seq<Node<T>>, cmp: (T, T) -> int, start: Node<T>)
    returns (head: Node?<T>, ghost perm: seq<nat>)
    requires DistinctNodes(nodes) && nodes != [] && start == nodes[0]
    requires Terminated(nodes, Links(nodes), Identity(|nodes|))
    modifies (set n | n in nodes)`next
    ensures Infos(nodes) == old(Infos(nodes))
    ensures |perm| == |nodes| && multiset(perm) == multiset(Identity(|nodes|)) && Positions(nodes, perm)
    ensures Terminated(nodes, Links(nodes), perm) && head == HeadOf(nodes, perm)
    ensures TotalPreorder(cmp) ==> StablySorted(Infos(nodes), cmp, perm)
  {
    hide TotalPreorder, StablySorted, Pass, Terminated, DistinctNodes, Infos, Links;
    ghost var v := Infos(nodes);
    var insize := 1;
    var list: Node?<T> := start;
    ghost var s: seq<nat> := Identity(|nodes|);
    ghost var sorted := Sort(v, cmp, s, 1);
    if TotalPreorder(cmp) { SortIsStable(v, cmp); }
    IdentityIsDistinct(|nodes|);
    while true
      invariant insize > 0 && Infos(nodes) == v && |s| == |nodes| && multiset(s) == multiset(Identity(|nodes|))
      invariant Positions(nodes, s) && Distinct(s) && Terminated(nodes, Links(nodes), s)
      invariant list == HeadOf(nodes, s)
      invariant Sort(v, cmp, s, insize) == sorted
      decreases if |s| > 2 * insize then |s| - 2 * insize else 0, if |s| > 2 * insize then 1 else 0
    {
      var nmerges;
      list, nmerges := OnePass(nodes, cmp, v, s, list, insize);
      PassPermutes(v, cmp, s, insize);
      s := Pass(v, cmp, s, insize);
      if nmerges <= 1 {
        perm := s;
        return list, perm;
      }
      insize := insize * 2;
    }
  }

  lemma IdentityIsDistinct(n: nat)
    ensures Distinct(Identity(n))
  {}

  // ---------------------------------------------------------------- remove and undo

  // core_list_remove: the item takes over the data of its successor, which is unlinked.
  method Remove<T>(item: Node<T>) returns (ret: Node<T>)
    requires item.next != null && item.next != item
    modifies item, item.next
    ensures ret == old(item.next) && ret.next == null && ret.info == old(item.info)
    ensures item.next == old(item.next.next) && item.info == old(item.next.info)
  {
    ret := item.next;
    var tmp := item.info;
    item.info := ret.info;
    ret.info := tmp;
    item.next := item.next.next;
    ret.next := null;
  }

  method UndoRemove<T>(removed: Node<T>, modified: Node<T>) returns (ret: Node<T>)
    requires removed != modified
    modifies removed, modified
    ensures ret == removed && modified.next == removed && removed.next == old(modified.next)
    ensures removed.info == old(modified.info) && modified.info == old(removed.info)
  {
    var tmp := removed.info;
    removed.info := modified.info;
    modified.info := tmp;
    removed.next := modified.next;
    modified.next := removed;
    ret := removed;
  }

  // Undoing a removal restores both nodes completely.
  method RemoveAndUndo<T>(item: Node<T>)
    requires item.next != null && item.next != item
    modifies item, item.next
    ensures item.next == old(item.next) && item.info == old(item.info)
    ensures old(item.next).next == old(item.next.next) && old(item.next).info == old(item.next.info)
  {
    var removed := Remove(item);
    var back := UndoRemove(removed, item);
  }
}

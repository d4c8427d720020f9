/**
 Bottom-up merge sort on values. A list is a sequence of positions in the original list; `v` holds the data of
 each position. Merging takes from the left run on ties, so the sort is stable.
 */
module MergeSortSpec {

  // cmp is a total preorder: <= 0 is total and transitive.
  ghost predicate TotalPreorder<T(!new)>(cmp: (T, T) -> int) {
    && (forall x, y :: cmp(x, y) <= 0 || cmp(y, x) <= 0)
    && (forall x, y, z :: cmp(x, y) <= 0 && cmp(y, z) <= 0 ==> cmp(x, z) <= 0)
  }

  predicate Le<T>(v: seq<T>, cmp: (T, T) -> int, i: nat, j: nat) {
    i < |v| && j < |v| && cmp(v[i], v[j]) <= 0
  }

  // Strictly before in a stable sort: smaller, or equal and originally earlier.
  predicate Before<T>(v: seq<T>, cmp: (T, T) -> int, i: nat, j: nat) {
    Le(v, cmp, i, j) && (Le(v, cmp, j, i) ==> i < j)
  }

  ghost predicate StablySorted<T>(v: seq<T>, cmp: (T, T) -> int, s: seq<nat>) {
    forall i, j :: 0 <= i < j < |s| ==> Before(v, cmp, s[i], s[j])
  }

  function Merge<T>(v: seq<T>, cmp: (T, T) -> int, a: seq<nat>, b: seq<nat>): seq<nat> {
    if a == [] then b
    else if b == [] then a
    else if Le(v, cmp, a[0], b[0]) then [a[0]] + Merge(v, cmp, a[1..], b)
    else [b[0]] + Merge(v, cmp, a, b[1..])
  }

  function Take(s: seq<nat>, w: nat): seq<nat> { if w < |s| then s[..w] else s }

  function Drop(s: seq<nat>, w: nat): (r: seq<nat>)
    ensures |r| <= |s| && (w > 0 && s != [] ==> |r| < |s|)
  {
    if w < |s| then s[w..] else []
  }

  // One pass: merge neighbouring runs of w elements.
  function Pass<T>(v: seq<T>, cmp: (T, T) -> int, s: seq<nat>, w: nat): seq<nat>
    requires w > 0
    decreases |s|
  {
    if s == [] then []
    else Merge(v, cmp, Take(s, w), Take(Drop(s, w), w)) + Pass(v, cmp, Drop(Drop(s, w), w), w)
  }

  // Passes with doubling runs until one merge does.
  function Sort<T>(v: seq<T>, cmp: (T, T) -> int, s: seq<nat>, w: nat): seq<nat>
    requires w > 0
    decreases if |s| > 2 * w then |s| - 2 * w else 0, if |s| > 2 * w then 1 else 0
  {
    var t := Pass(v, cmp, s, w);
    if |s| <= 2 * w then t
    else
      PassPermutes(v, cmp, s, w);
      Sort(v, cmp, t, 2 * w)
  }

  function Identity(n: nat): (s: seq<nat>)
    ensures |s| == n && forall k :: 0 <= k < n ==> s[k] == k
  {
    seq(n, k => k)
  }

  // ---------------------------------------------------------------- permutation

  lemma {:induction false} MergePermutes<T>(v: seq<T>, cmp: (T, T) -> int, a: seq<nat>, b: seq<nat>)
    ensures multiset(Merge(v, cmp, a, b)) == multiset(a) + multiset(b)
    ensures |Merge(v, cmp, a, b)| == |a| + |b|
  {
    if a != [] && b != [] {
      if Le(v, cmp, a[0], b[0]) {
        MergePermutes(v, cmp, a[1..], b);
        assert a == [a[0]] + a[1..];
      } else {
        MergePermutes(v, cmp, a, b[1..]);
        assert b == [b[0]] + b[1..];
      }
    }
  }

  lemma TakeDrop(s: seq<nat>, w: nat)
    ensures s == Take(s, w) + Drop(s, w)
  {}

  lemma {:induction false} PassPermutes<T>(v: seq<T>, cmp: (T, T) -> int, s: seq<nat>, w: nat)
    requires w > 0
    ensures multiset(Pass(v, cmp, s, w)) == multiset(s) && |Pass(v, cmp, s, w)| == |s|
    decreases |s|
  {
    if s != [] {
      var p, t := Take(s, w), Drop(s, w);
      var q, rest := Take(t, w), Drop(t, w);
      TakeDrop(s, w);
      TakeDrop(t, w);
      assert s == p + (q + rest);
      MergePermutes(v, cmp, p, q);
      PassPermutes(v, cmp, rest, w);
    }
  }

  // ---------------------------------------------------------------- runs

  // s holds the positions lo..lo+|s| in stable order.
  ghost predicate Run<T>(v: seq<T>, cmp: (T, T) -> int, s: seq<nat>, lo: nat) {
    StablySorted(v, cmp, s) && forall x :: x in s ==> lo <= x < lo + |s| <= |v|
  }

  // s consists of runs of w elements over consecutive positions starting at lo.
  ghost predicate Runs<T>(v: seq<T>, cmp: (T, T) -> int, s: seq<nat>, w: nat, lo: nat)
    requires w > 0
    decreases |s|
  {
    s == [] || (Run(v, cmp, Take(s, w), lo) && Runs(v, cmp, Drop(s, w), w, lo + |Take(s, w)|))
  }

  // Merging stable runs, all of the left one originally before all of the right one.
  lemma {:induction false} MergeIsSorted<T(!new)>(v: seq<T>, cmp: (T, T) -> int, a: seq<nat>, b: seq<nat>)
    requires TotalPreorder(cmp)
    requires StablySorted(v, cmp, a) && StablySorted(v, cmp, b)
    requires forall x, y :: x in a && y in b ==> x < y < |v|
    ensures StablySorted(v, cmp, Merge(v, cmp, a, b))
  {
    if a != [] && b != [] {
      if Le(v, cmp, a[0], b[0]) {
        TailIn(a);
        MergeIsSorted(v, cmp, a[1..], b);
        HeadBefore(v, cmp, a, b);
        PrependSorted(v, cmp, a[0], a[1..], b, Merge(v, cmp, a[1..], b));
      } else {
        TailIn(b);
        MergeIsSorted(v, cmp, a, b[1..]);
        RightHeadBefore(v, cmp, a, b);
        PrependSorted(v, cmp, b[0], a, b[1..], Merge(v, cmp, a, b[1..]));
      }
    }
  }

  lemma TailIn(a: seq<nat>)
    requires a != []
    ensures forall x :: x in a[1..] ==> x in a
  {}

  lemma HeadBefore<T(!new)>(v: seq<T>, cmp: (T, T) -> int, a: seq<nat>, b: seq<nat>)
    requires TotalPreorder(cmp) && a != [] && b != [] && Le(v, cmp, a[0], b[0])
    requires StablySorted(v, cmp, a) && StablySorted(v, cmp, b)
    requires forall x, y :: x in a && y in b ==> x < y < |v|
    ensures forall y :: y in a[1..] || y in b ==> Before(v, cmp, a[0], y)
  {
    assert a[0] in a;
    forall y | y in b
      ensures Before(v, cmp, a[0], y)
    {
      var k :| 0 <= k < |b| && b[k] == y;
      if k > 0 { assert Before(v, cmp, b[0], b[k]); }
    }
    forall y | y in a[1..]
      ensures Before(v, cmp, a[0], y)
    {
      var k :| 0 <= k < |a| - 1 && a[1..][k] == y;
      assert Before(v, cmp, a[0], a[k + 1]);
    }
  }

  lemma RightHeadBefore<T(!new)>(v: seq<T>, cmp: (T, T) -> int, a: seq<nat>, b: seq<nat>)
    requires TotalPreorder(cmp) && a != [] && b != [] && !Le(v, cmp, a[0], b[0])
    requires StablySorted(v, cmp, a) && StablySorted(v, cmp, b)
    requires forall x, y :: x in a && y in b ==> x < y < |v|
    ensures forall y :: y in a || y in b[1..] ==> Before(v, cmp, b[0], y)
  {
    assert a[0] in a && b[0] in b;
    assert Le(v, cmp, b[0], a[0]);
    forall y | y in a
      ensures Before(v, cmp, b[0], y)
    {
      var k :| 0 <= k < |a| && a[k] == y;
      if k > 0 { assert Before(v, cmp, a[0], a[k]); }
    }
    forall y | y in b[1..]
      ensures Before(v, cmp, b[0], y)
    {
      var k :| 0 <= k < |b| - 1 && b[1..][k] == y;
      assert Before(v, cmp, b[0], b[k + 1]);
    }
  }

  lemma PrependSorted<T>(v: seq<T>, cmp: (T, T) -> int, x: nat, a: seq<nat>, b: seq<nat>, m: seq<nat>)
    requires StablySorted(v, cmp, m) && m == Merge(v, cmp, a, b)
    requires forall y :: y in a || y in b ==> Before(v, cmp, x, y)
    ensures StablySorted(v, cmp, [x] + m)
  {
    MergePermutes(v, cmp, a, b);
    forall k | 0 <= k < |m|
      ensures Before(v, cmp, x, m[k])
    {
      assert m[k] in multiset(m);
      assert m[k] in multiset(a) || m[k] in multiset(b);
    }
  }

  lemma MergeRuns<T(!new)>(v: seq<T>, cmp: (T, T) -> int, a: seq<nat>, b: seq<nat>, lo: nat)
    requires TotalPreorder(cmp) && Run(v, cmp, a, lo) && Run(v, cmp, b, lo + |a|)
    ensures Run(v, cmp, Merge(v, cmp, a, b), lo)
  {
    RunPositions(v, cmp, a, b, lo);
    MergeIsSorted(v, cmp, a, b);
    MergePermutes(v, cmp, a, b);
    SamePositions(Merge(v, cmp, a, b), a, b, lo, lo + |a| + |b|);
  }

  lemma RunPositions<T>(v: seq<T>, cmp: (T, T) -> int, a: seq<nat>, b: seq<nat>, lo: nat)
    requires Run(v, cmp, a, lo) && Run(v, cmp, b, lo + |a|)
    ensures forall x :: x in a ==> lo <= x < lo + |a|
    ensures forall x :: x in b ==> lo + |a| <= x < lo + |a| + |b| <= |v|
    ensures a != [] || b != [] ==> lo + |a| + |b| <= |v|
  {
    if a != [] { assert a[0] in a; }
    if b != [] { assert b[0] in b; }
  }

  lemma SamePositions(m: seq<nat>, a: seq<nat>, b: seq<nat>, lo: nat, hi: nat)
    requires multiset(m) == multiset(a) + multiset(b)
    requires forall x :: x in a || x in b ==> lo <= x < hi
    ensures forall x :: x in m ==> lo <= x < hi
  {
    forall x | x in m
      ensures lo <= x < hi
    {
      assert x in multiset(m);
      assert x in multiset(a) || x in multiset(b);
      assert x in a || x in b;
    }
  }

  // A pass doubles the length of the runs.
  lemma {:induction false} PassDoublesRuns<T(!new)>(v: seq<T>, cmp: (T, T) -> int, s: seq<nat>, w: nat, lo: nat)
    requires w > 0 && TotalPreorder(cmp) && Runs(v, cmp, s, w, lo) && lo + |s| <= |v|
    ensures Runs(v, cmp, Pass(v, cmp, s, w), 2 * w, lo)
    decreases |s|
  {
    hide TotalPreorder, Run, Merge, Runs, Take, Pass;
    NoRuns(v, cmp, 2 * w, lo);
    PassIs(v, cmp, s, w);
    if s != [] {
      var p, t := Take(s, w), Drop(s, w);
      var q, rest := Take(t, w), Drop(t, w);
      FirstTwoRuns(v, cmp, s, w, lo);
      PassDoublesRuns(v, cmp, rest, w, lo + |p| + |q|);
      MergeRuns(v, cmp, p, q, lo);
      MergePermutes(v, cmp, p, q);
      PassPermutes(v, cmp, rest, w);
      RunsJoin(v, cmp, Merge(v, cmp, p, q), Pass(v, cmp, rest, w), 2 * w, lo);
    }
  }

  lemma NoRuns<T>(v: seq<T>, cmp: (T, T) -> int, w: nat, lo: nat)
    requires w > 0
    ensures Runs(v, cmp, [], w, lo)
  {}

  lemma PassIs<T>(v: seq<T>, cmp: (T, T) -> int, s: seq<nat>, w: nat)
    requires w > 0
    ensures var t := Drop(s, w);
      Pass(v, cmp, s, w) ==
      if s == [] then [] else Merge(v, cmp, Take(s, w), Take(t, w)) + Pass(v, cmp, Drop(t, w), w)
  {
    hide Merge, Take;
  }

  lemma FirstTwoRuns<T>(v: seq<T>, cmp: (T, T) -> int, s: seq<nat>, w: nat, lo: nat)
    requires w > 0 && s != [] && Runs(v, cmp, s, w, lo) && lo + |s| <= |v|
    ensures var p, t := Take(s, w), Drop(s, w);
      var q, rest := Take(t, w), Drop(t, w);
      && Run(v, cmp, p, lo) && Run(v, cmp, q, lo + |p|) && Runs(v, cmp, rest, w, lo + |p| + |q|)
      && |p| + |q| + |rest| == |s| && (|p| + |q| == 2 * w || (|p| + |q| < 2 * w && rest == []))
  {
    var p, t := Take(s, w), Drop(s, w);
    if t == [] { assert Run(v, cmp, Take(t, w), lo + |p|); }
  }

  lemma RunsJoin<T>(v: seq<T>, cmp: (T, T) -> int, m: seq<nat>, r: seq<nat>, w: nat, lo: nat)
    requires w > 0 && Run(v, cmp, m, lo) && Runs(v, cmp, r, w, lo + |m|)
    requires |m| == w || (|m| < w && r == [])
    ensures Runs(v, cmp, m + r, w, lo)
  {
    assert Take(m + r, w) == m && Drop(m + r, w) == r;
  }

  // Sorting runs of any width gives one run: the same positions, in stable order.
  lemma {:induction false} SortSorts<T(!new)>(v: seq<T>, cmp: (T, T) -> int, s: seq<nat>, w: nat)
    requires w > 0 && TotalPreorder(cmp) && Runs(v, cmp, s, w, 0) && |s| <= |v|
    ensures StablySorted(v, cmp, Sort(v, cmp, s, w))
    ensures multiset(Sort(v, cmp, s, w)) == multiset(s) && |Sort(v, cmp, s, w)| == |s|
    decreases if |s| > 2 * w then |s| - 2 * w else 0, if |s| > 2 * w then 1 else 0
  {
    var t := Pass(v, cmp, s, w);
    PassDoublesRuns(v, cmp, s, w, 0);
    PassPermutes(v, cmp, s, w);
    if |s| > 2 * w { SortSorts(v, cmp, t, 2 * w); }
  }

  // Single elements are runs.
  lemma {:induction false} SinglesAreRuns<T(!new)>(v: seq<T>, cmp: (T, T) -> int, s: seq<nat>, lo: nat)
    requires TotalPreorder(cmp) && lo + |s| <= |v| && forall k :: 0 <= k < |s| ==> s[k] == lo + k
    ensures Runs(v, cmp, s, 1, lo)
    decreases |s|
  {
    if s != [] { SinglesAreRuns(v, cmp, Drop(s, 1), lo + 1); }
  }

  // The whole sort, from the list in its original order: the same elements, sorted and stable.
  lemma SortIsStable<T(!new)>(v: seq<T>, cmp: (T, T) -> int)
    requires TotalPreorder(cmp)
    ensures var r := Sort(v, cmp, Identity(|v|), 1);
      StablySorted(v, cmp, r) && multiset(r) == multiset(Identity(|v|)) && |r| == |v|
  {
    SinglesAreRuns(v, cmp, Identity(|v|), 0);
    SortSorts(v, cmp, Identity(|v|), 1);
  }
}

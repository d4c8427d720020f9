/** mark, search and solve of labyrinth.c on the maze array in place: a wavefront flood and the descent along it. */
module Labyrinth {
  import opened MazeSpec

  // ---------------------------------------------------------------- what a sweep writes

  // The label a flood of h waves has given c: 1 + its distance, or 0.
  function Label(z: Maze, h: nat, c: Cell): nat
    requires |z.cells| == z.lin * z.col
  {
    if !z.Near(h, c) then 0
    else if h == 0 || !z.Near(h - 1, c) then h + 1
    else Label(z, h - 1, c)
  }

  // Sweep h pushes from d once it has passed d, which is at distance h.
  predicate Pushes(z: Maze, h: nat, pos: nat, d: Cell)
    requires |z.cells| == z.lin * z.col
  {
    z.Exactly(h, d) && z.At(d) < pos
  }

  predicate Pushed(z: Maze, h: nat, pos: nat, c: Cell)
    requires |z.cells| == z.lin * z.col
  {
    Pushes(z, h, pos, Up(c)) || Pushes(z, h, pos, Down(c)) || Pushes(z, h, pos, Left(c)) || Pushes(z, h, pos, Right(c))
  }

  // What the array holds at c when sweep h has passed the cells before `pos`.
  ghost function Expected(z: Maze, h: nat, pos: nat, c: Cell): int
    requires |z.cells| == z.lin * z.col && z.Inside(c)
  {
    AtInBounds(z, c);
    if z.Near(h, c) then Label(z, h, c)
    else if z.Open(c) && Pushed(z, h, pos, c) then h + 2
    else z.cells[z.At(c)]
  }

  function ValueAt(z: Maze, s: seq<int>, c: Cell): int
    requires |s| == z.lin * z.col && z.Inside(c)
  {
    AtInBounds(z, c);
    s[z.At(c)]
  }

  ghost predicate SweepState(z: Maze, h: nat, pos: nat, s: seq<int>) {
    && z.Valid() && |s| == |z.cells|
    && forall c :: z.Inside(c) ==> ValueAt(z, s, c) == Expected(z, h, pos, c)
  }

  lemma {:induction false} LabelIsDistance(z: Maze, h: nat, c: Cell, n: nat)
    requires |z.cells| == z.lin * z.col
    ensures Label(z, h, c) == n + 1 <==> n <= h && z.Exactly(n, c)
    ensures Label(z, h, c) > 0 <==> z.Near(h, c)
    ensures Label(z, h, c) <= h + 1
  {
    if z.Near(h, c) {
      if h == 0 || !z.Near(h - 1, c) {
        if z.Exactly(n, c) && n < h { NearMonotone(z, n, h - 1, c); }
      } else {
        LabelIsDistance(z, h - 1, c, n);
      }
    } else if n <= h && z.Near(n, c) {
      NearMonotone(z, n, h, c);
    }
  }

  // ---------------------------------------------------------------- one cell of a sweep

  function Touch(z: Maze, s: seq<int>, d: Cell, v: int): (s': seq<int>)
    requires |s| == z.lin * z.col
    ensures |s'| == |s|
  {
    if z.Inside(d) && ValueAt(z, s, d) == 0 then
      AtInBounds(z, d);
      s[z.At(d) := v]
    else s
  }

  function Spread(z: Maze, s: seq<int>, c: Cell, v: int): (s': seq<int>)
    requires |s| == z.lin * z.col
    ensures |s'| == |s|
  {
    Touch(z, Touch(z, Touch(z, Touch(z, s, Up(c), v), Down(c), v), Left(c), v), Right(c), v)
  }

  lemma TouchAt(z: Maze, s: seq<int>, d: Cell, v: int, x: Cell)
    requires |s| == z.lin * z.col && z.Inside(x)
    ensures ValueAt(z, Touch(z, s, d, v), x) == if x == d && ValueAt(z, s, x) == 0 then v else ValueAt(z, s, x)
  {
    if z.Inside(d) {
      AtInBounds(z, d);
      AtInBounds(z, x);
      AtInjective(z, d, x);
    }
  }

  lemma SpreadAt(z: Maze, s: seq<int>, c: Cell, v: int, x: Cell)
    requires |s| == z.lin * z.col && z.Inside(x) && v != 0
    ensures ValueAt(z, Spread(z, s, c, v), x) == if Adjacent(x, c) && ValueAt(z, s, x) == 0 then v else ValueAt(z, s, x)
  {
    var s1 := Touch(z, s, Up(c), v);
    var s2 := Touch(z, s1, Down(c), v);
    var s3 := Touch(z, s2, Left(c), v);
    TouchAt(z, s, Up(c), v, x);
    TouchAt(z, s1, Down(c), v, x);
    TouchAt(z, s2, Left(c), v, x);
    TouchAt(z, s3, Right(c), v, x);
  }

  // A cell shows the label of wave h exactly when it is at distance h.
  lemma ShowsWave(z: Maze, h: nat, pos: nat, s: seq<int>, c: Cell)
    requires SweepState(z, h, pos, s) && z.Inside(c)
    ensures ValueAt(z, s, c) == h + 1 <==> z.Exactly(h, c)
  {
    LabelIsDistance(z, h, c, h);
    AtInBounds(z, c);
  }

  lemma PushedStep(z: Maze, h: nat, c: Cell, x: Cell)
    requires |z.cells| == z.lin * z.col && z.Inside(c) && z.Inside(x)
    ensures z.At(c) >= 0
    ensures Pushed(z, h, z.At(c) + 1, x) <==> Pushed(z, h, z.At(c), x) || (Adjacent(x, c) && z.Exactly(h, c))
  {
    AtInBounds(z, c);
    PushesStep(z, h, c, Up(x));
    PushesStep(z, h, c, Down(x));
    PushesStep(z, h, c, Left(x));
    PushesStep(z, h, c, Right(x));
  }

  lemma PushesStep(z: Maze, h: nat, c: Cell, d: Cell)
    requires |z.cells| == z.lin * z.col && z.Inside(c) && z.At(c) >= 0
    ensures Pushes(z, h, z.At(c) + 1, d) <==> Pushes(z, h, z.At(c), d) || (d == c && z.Exactly(h, c))
  {
    if z.Inside(d) { AtInjective(z, c, d); }
  }

  lemma SweepCell(z: Maze, h: nat, s: seq<int>, c: Cell)
    requires z.Inside(c) && z.At(c) >= 0 && SweepState(z, h, z.At(c), s)
    ensures var s' := if ValueAt(z, s, c) == h + 1 then Spread(z, s, c, h + 2) else s;
      SweepState(z, h, z.At(c) + 1, s')
  {
    hide Spread, ValueAt, Expected;
    var s' := if ValueAt(z, s, c) == h + 1 then Spread(z, s, c, h + 2) else s;
    forall x | z.Inside(x)
      ensures ValueAt(z, s', x) == Expected(z, h, z.At(c) + 1, x)
    {
      SweepCellAt(z, h, s, c, x);
    }
  }

  lemma SweepCellAt(z: Maze, h: nat, s: seq<int>, c: Cell, x: Cell)
    requires z.Inside(c) && z.Inside(x) && z.At(c) >= 0 && SweepState(z, h, z.At(c), s)
    ensures var s' := if ValueAt(z, s, c) == h + 1 then Spread(z, s, c, h + 2) else s;
      |s'| == |s| && ValueAt(z, s', x) == Expected(z, h, z.At(c) + 1, x)
  {
    hide ValueAt, Spread, Expected, Maze.At, Maze.Near, Maze.Exactly;
    ShowsWave(z, h, z.At(c), s, c);
    ExpectedStep(z, h, c, x);
    if z.Exactly(h, c) { SpreadAt(z, s, c, h + 2, x); }
  }

  // Passing c changes what is expected only of its neighbours that still hold 0, when c is at distance h.
  lemma ExpectedStep(z: Maze, h: nat, c: Cell, x: Cell)
    requires z.Valid() && z.Inside(c) && z.Inside(x) && z.At(c) >= 0
    ensures Expected(z, h, z.At(c) + 1, x) ==
      if Adjacent(x, c) && z.Exactly(h, c) && Expected(z, h, z.At(c), x) == 0 then h + 2 else Expected(z, h, z.At(c), x)
  {
    PushedStep(z, h, c, x);
    LabelIsDistance(z, h, x, 0);
    if !z.Near(h, x) { AtInBounds(z, x); }
  }

  // ---------------------------------------------------------------- whole sweeps

  lemma FloodStarts(z: Maze)
    requires z.Valid()
    ensures 0 <= z.At(z.end) < |z.cells|
    ensures SweepState(z, 0, 0, z.cells[z.At(z.end) := 1])
  {
    AtInBounds(z, z.end);
    var s := z.cells[z.At(z.end) := 1];
    forall c | z.Inside(c)
      ensures ValueAt(z, s, c) == Expected(z, 0, 0, c)
    {
      AtInBounds(z, c);
      AtInjective(z, c, z.end);
      NothingPushed(z, 0, c);
    }
  }

  lemma NothingPushed(z: Maze, h: nat, c: Cell)
    requires |z.cells| == z.lin * z.col
    ensures !Pushed(z, h, 0, c)
  {
    NothingPushes(z, h, Up(c));
    NothingPushes(z, h, Down(c));
    NothingPushes(z, h, Left(c));
    NothingPushes(z, h, Right(c));
  }

  lemma NothingPushes(z: Maze, h: nat, d: Cell)
    requires |z.cells| == z.lin * z.col
    ensures !Pushes(z, h, 0, d)
  {
    if z.Inside(d) { AtInBounds(z, d); }
  }

  // The end of one sweep is the beginning of the next.
  lemma SweepEnds(z: Maze, h: nat, s: seq<int>)
    requires SweepState(z, h, |z.cells|, s)
    ensures SweepState(z, h + 1, 0, s)
  {
    forall c | z.Inside(c)
      ensures Expected(z, h, |z.cells|, c) == Expected(z, h + 1, 0, c)
    {
      NothingPushed(z, h + 1, c);
      if !z.Near(h, c) {
        NextWave(z, h, c);
      }
    }
  }

  lemma NextWave(z: Maze, h: nat, c: Cell)
    requires z.Valid() && z.Inside(c) && !z.Near(h, c)
    ensures z.Near(h + 1, c) <==> z.Open(c) && Pushed(z, h, |z.cells|, c)
  {
    if z.Open(c) {
      WaveFrom(z, h, c, Up(c));
      WaveFrom(z, h, c, Down(c));
      WaveFrom(z, h, c, Left(c));
      WaveFrom(z, h, c, Right(c));
    }
  }

  lemma WaveFrom(z: Maze, h: nat, c: Cell, d: Cell)
    requires z.Valid() && z.Inside(c) && !z.Near(h, c) && Adjacent(c, d) && z.Open(c)
    ensures z.Near(h, d) <==> Pushes(z, h, |z.cells|, d)
  {
    if z.Near(h, d) { AtInBounds(z, d); }
  }

  // The flooded maze: labels are distances from the end plus one; cells that are not connected are as before.
  ghost predicate Flooded(z: Maze, s: seq<int>) {
    && z.Valid() && |s| == |z.cells|
    && forall c :: z.Inside(c) ==>
         && (forall n: nat :: z.Exactly(n, c) ==> ValueAt(z, s, c) == n + 1)
         && (!z.Connected(c) ==> ValueAt(z, s, c) == ValueAt(z, z.cells, c))
  }

  lemma FloodEnds(z: Maze, s: seq<int>)
    requires SweepState(z, |z.cells|, 0, s)
    ensures Flooded(z, s)
  {
    var size := |z.cells|;
    forall c | z.Inside(c)
      ensures forall n: nat :: z.Exactly(n, c) ==> ValueAt(z, s, c) == n + 1
      ensures !z.Connected(c) ==> ValueAt(z, s, c) == ValueAt(z, z.cells, c)
    {
      forall n: nat | z.Exactly(n, c)
        ensures ValueAt(z, s, c) == n + 1
      {
        NearWithinSize(z, n, c);
        var m := LeastDistance(z, size, c);
        DistanceIsUnique(z, m, n, c);
        LabelIsDistance(z, size, c, n);
      }
      NothingPushed(z, size, c);
    }
  }

  // ---------------------------------------------------------------- the routines

  method TouchCell(ghost z: Maze, m: array<int>, d: Cell, lin: int, col: int, v: int)
    requires m.Length == z.lin * z.col && lin == z.lin && col == z.col
    modifies m
    ensures m[..] == Touch(z, old(m[..]), d, v)
  {
    if 0 <= d.i < lin && 0 <= d.j < col {
      AtInBounds(z, d);
      if m[d.i * col + d.j] == 0 {
        m[d.i * col + d.j] := v;
      }
    }
  }

  method Mark(ghost z: Maze, m: array<int>, lin: int, col: int)
    requires z.Valid() && lin == z.lin && col == z.col && m.Length == |z.cells|
    requires SweepState(z, 0, 0, m[..])
    modifies m
    ensures Flooded(z, m[..])
  {
    var h, k := 0, 1;
    while h < lin * col
      invariant 0 <= h <= lin * col && k == h + 1 && SweepState(z, h, 0, m[..])
    {
      Sweep(z, m, lin, col, h, k);
      h, k := h + 1, k + 1;
    }
    FloodEnds(z, m[..]);
  }

  // Lines 22-43.
  method Sweep(ghost z: Maze, m: array<int>, lin: int, col: int, ghost h: nat, k: nat)
    requires lin == z.lin && col == z.col && m.Length == |z.cells| && k == h + 1
    requires 0 <= lin && 0 <= col && SweepState(z, h, 0, m[..])
    modifies m
    ensures SweepState(z, h + 1, 0, m[..])
  {
    hide SweepState;
    var i := 0;
    ghost var at: nat := 0;
    while i < lin
      invariant 0 <= i <= lin && at == i * col && SweepState(z, h, at, m[..])
    {
      SweepRow(z, m, i, lin, col, h, k, at);
      NextRow(i, col);
      at := at + col;
      i := i + 1;
    }
    SweepIsValid(z, h, at, m[..]);
    SweepEnds(z, h, m[..]);
  }

  // Lines 23-42.
  method SweepRow(ghost z: Maze, m: array<int>, i: int, lin: int, col: int, ghost h: nat, k: nat, ghost at: nat)
    requires lin == z.lin && col == z.col && m.Length == |z.cells| && k == h + 1
    requires 0 <= i < lin && 0 <= col && at == i * col && SweepState(z, h, at, m[..])
    modifies m
    ensures SweepState(z, h, at + col, m[..])
  {
    hide SweepState;
    var j := 0;
    while j < col
      invariant 0 <= j <= col && SweepState(z, h, at + j, m[..])
    {
      VisitCell(z, m, i, j, lin, col, h, k);
      j := j + 1;
    }
  }

  // Lines 24-41.
  method VisitCell(ghost z: Maze, m: array<int>, i: int, j: int, lin: int, col: int, ghost h: nat, k: nat)
    requires lin == z.lin && col == z.col && m.Length == |z.cells| && k == h + 1
    requires 0 <= i < lin && 0 <= j < col && i * col + j >= 0 && SweepState(z, h, i * col + j, m[..])
    modifies m
    ensures SweepState(z, h, i * col + j + 1, m[..])
  {
    hide Spread, Expected, SweepState;
    var c := Cell(i, j);
    SweepIsValid(z, h, z.At(c), m[..]);
    AtInBounds(z, c);
    SweepCell(z, h, m[..], c);
    ghost var s := m[..];
    if m[i * col + j] == k {
      TouchCell(z, m, Up(c), lin, col, k + 1);
      TouchCell(z, m, Down(c), lin, col, k + 1);
      TouchCell(z, m, Left(c), lin, col, k + 1);
      TouchCell(z, m, Right(c), lin, col, k + 1);
      FourTouches(z, s, c, k + 1);
    }
  }

  lemma SweepIsValid(z: Maze, h: nat, pos: nat, s: seq<int>)
    requires SweepState(z, h, pos, s)
    ensures z.Valid() && |s| == |z.cells|
  {}

  lemma FourTouches(z: Maze, s: seq<int>, c: Cell, v: int)
    requires |s| == z.lin * z.col
    ensures Spread(z, s, c, v)
      == Touch(z, Touch(z, Touch(z, Touch(z, s, Up(c), v), Down(c), v), Left(c), v), Right(c), v)
  {}

  lemma NextRow(i: int, col: int)
    requires i * col >= 0 && col >= 0
    ensures (i + 1) * col == i * col + col >= 0
  {}

  // ---------------------------------------------------------------- the descent

  // A neighbour the descent may step to.
  predicate Lower(z: Maze, s: seq<int>, k: int, x: Cell)
    requires |s| == z.lin * z.col
  {
    z.Inside(x) && 0 < ValueAt(z, s, x) < k
  }

  // The step the descent takes from c: the first lower neighbour in the order up, down, left, right.
  predicate FirstLower(z: Maze, s: seq<int>, c: Cell, next: Cell)
    requires |s| == z.lin * z.col && z.Inside(c)
  {
    var k := ValueAt(z, s, c);
    && Lower(z, s, k, next)
    && if Lower(z, s, k, Up(c)) then next == Up(c)
       else if Lower(z, s, k, Down(c)) then next == Down(c)
       else if Lower(z, s, k, Left(c)) then next == Left(c)
       else next == Right(c)
  }

  ghost predicate StepTaken(z: Maze, s: seq<int>, from: Cell, to: Cell)
    requires |s| == z.lin * z.col
  {
    z.Inside(from) && FirstLower(z, s, from, to)
  }

  // Every step of the walk, which is listed last cell first, is that one.
  ghost predicate StepsInOrder(z: Maze, s: seq<int>, path: seq<Cell>)
    requires |s| == z.lin * z.col
  {
    forall k, l :: 0 <= k < l < |path| && l == k + 1 ==> StepTaken(z, s, path[l], path[k])
  }

  lemma OneMoreStep(z: Maze, s: seq<int>, path: seq<Cell>, next: Cell)
    requires |s| == z.lin * z.col && path != [] && StepsInOrder(z, s, path) && StepTaken(z, s, path[0], next)
    ensures StepsInOrder(z, s, [next] + path)
  {
    hide StepTaken;
    var p := [next] + path;
    forall k, l | 0 <= k < l < |p| && l == k + 1
      ensures StepTaken(z, s, p[l], p[k])
    {
      if k > 0 { assert p[k] == path[k - 1] && p[l] == path[l - 1]; }
    }
  }

  // From a connected cell the descent steps to a cell exactly one closer, and it stops only at the end.
  lemma DescentStep(z: Maze, s: seq<int>, c: Cell, n: nat, x: Cell)
    requires Flooded(z, s) && z.Exactly(n, c) && Adjacent(x, c)
    ensures ValueAt(z, s, c) == n + 1
    ensures Lower(z, s, n + 1, x) ==> n > 0 && z.Exactly(n - 1, x) && z.Open(x)
    ensures n > 0 ==> exists y :: Adjacent(y, c) && Lower(z, s, n + 1, y)
  {
    if Lower(z, s, n + 1, x) {
      AtInBounds(z, x);
      assert z.Connected(x);
      var i: nat :| z.Near(i, x);
      var m := LeastDistance(z, i, x);
      NeighbourDistance(z, n, m, c, x);
      NearIsOpen(z, m, x);
    }
    if n > 0 {
      var d := CloserNeighbour(z, n, c);
      assert Adjacent(d, c) && Lower(z, s, n + 1, d);
    }
  }

  // The cells visited so far, last first: a walk from c back to the start, getting one closer per move.
  ghost predicate Descending(z: Maze, s: seq<int>, start: Cell, c: Cell, path: seq<Cell>, far: nat) {
    && Flooded(z, s) && z.Inside(start) && z.Inside(c)
    && path != [] && path[0] == c && path[|path| - 1] == start
    && (forall k :: 0 <= k < |path| - 1 ==> Adjacent(path[k + 1], path[k]))
    && if z.Connected(start) then
         && |path| - 1 <= far && z.Exactly(far, start) && z.Exactly(far - (|path| - 1), c)
         && (forall k :: 0 <= k < |path| ==> z.Open(path[k]))
       else path == [start]
  }

  lemma DescendingStarts(z: Maze, s: seq<int>, start: Cell) returns (far: nat)
    requires Flooded(z, s) && z.Inside(start)
    ensures Descending(z, s, start, start, [start], far)
  {
    far := 0;
    if z.Connected(start) {
      var n: nat :| z.Near(n, start);
      far := LeastDistance(z, n, start);
      NearIsOpen(z, far, start);
    }
  }

  lemma DescendingMoves(z: Maze, s: seq<int>, start: Cell, c: Cell, path: seq<Cell>, far: nat, next: Cell)
    requires Descending(z, s, start, c, path, far) && Adjacent(next, c) && Lower(z, s, ValueAt(z, s, c), next)
    ensures Descending(z, s, start, next, [next] + path, far)
  {
    AtInBounds(z, c);
    if z.Connected(start) {
      DescentStep(z, s, c, far - (|path| - 1), next);
    }
    var p := [next] + path;
    forall k | 0 <= k < |p| - 1
      ensures Adjacent(p[k + 1], p[k])
    {}
  }

  // Where no neighbour is lower the descent has reached the end, or was never connected to it.
  lemma DescentStops(z: Maze, s: seq<int>, start: Cell, c: Cell, path: seq<Cell>, far: nat)
    requires Descending(z, s, start, c, path, far)
    requires forall x :: Adjacent(x, c) ==> !Lower(z, s, ValueAt(z, s, c), x)
    ensures ValueAt(z, s, c) <= 1
    ensures c == z.end <==> z.Connected(start)
    ensures z.Connected(start) ==> IsPath(z, path, start) && forall p :: IsPath(z, p, start) ==> |path| <= |p|
  {
    AtInBounds(z, c);
    if z.Connected(start) {
      DescentStep(z, s, c, far - (|path| - 1), Up(c));
      ExactlyIsShortestPath(z, far, start);
    } else {
      assert !z.Near(0, start);
    }
  }

  // Lines 54-77: the first lower neighbour in the order up, down, left, right, or c itself.
  method Choose(ghost z: Maze, m: array<int>, c: Cell, k: int, lin: int, col: int) returns (next: Cell)
    requires lin == z.lin && col == z.col && m.Length == lin * col && z.Inside(c)
    ensures next == c ==> forall x :: Adjacent(x, c) ==> !Lower(z, m[..], k, x)
    ensures next != c ==> Adjacent(next, c) && Lower(z, m[..], k, next)
    ensures next != c && k == ValueAt(z, m[..], c) ==> FirstLower(z, m[..], c, next)
  {
    hide Lower;
    next := c;
    var up := IsLower(z, m, Up(c), k, lin, col);
    if up { return Up(c); }
    var down := IsLower(z, m, Down(c), k, lin, col);
    if down { return Down(c); }
    var left := IsLower(z, m, Left(c), k, lin, col);
    if left { return Left(c); }
    var right := IsLower(z, m, Right(c), k, lin, col);
    if right { return Right(c); }
  }

  method IsLower(ghost z: Maze, m: array<int>, d: Cell, k: int, lin: int, col: int) returns (lower: bool)
    requires lin == z.lin && col == z.col && m.Length == lin * col
    ensures lower <==> Lower(z, m[..], k, d)
  {
    lower := false;
    if 0 <= d.i < lin && 0 <= d.j < col {
      AtInBounds(z, d);
      lower := 0 < m[d.i * col + d.j] < k;
    }
  }

  // search: true exactly when the start is connected to the end. The cells visited, last first, are then a
  // shortest path.
  method Search(ghost z: Maze, m: array<int>, start: Cell, end: Cell, lin: int, col: int)
    returns (found: bool, ghost path: seq<Cell>)
    requires lin == z.lin && col == z.col && end == z.end && m.Length == |z.cells| && z.Inside(start)
    requires Flooded(z, m[..])
    ensures found <==> z.Connected(start)
    ensures found ==> IsPath(z, path, start) && forall p :: IsPath(z, p, start) ==> |path| <= |p|
    ensures path != [] && path[|path| - 1] == start && StepsInOrder(z, m[..], path)
  {
    hide Flooded, IsPath, Lower, FirstLower;
    ghost var s := m[..];
    FloodedIsValid(z, s);
    ghost var far := DescendingStarts(z, s, start);
    var c := start;
    path := [start];
    var k := 2;
    while k > 1
      invariant Descending(z, s, start, c, path, far) && StepsInOrder(z, s, path)
      invariant k <= 1 ==> forall x :: Adjacent(x, c) ==> !Lower(z, s, ValueAt(z, s, c), x)
      decreases if k > 1 then 1 else 0, ValueAt(z, s, c)
    {
      AtInBounds(z, c);
      k := m[c.i * col + c.j];
      var next := Choose(z, m, c, k, lin, col);
      if next != c {
        LowerIsPositive(z, s, k, next);
        DescendingMoves(z, s, start, c, path, far, next);
        OneMoreStep(z, s, path, next);
        path := [next] + path;
        c := next;
      } else {
        DescentStops(z, s, start, c, path, far);
      }
    }
    DescentStops(z, s, start, c, path, far);
    found := c.i == end.i && c.j == end.j;
  }

  lemma FloodedIsValid(z: Maze, s: seq<int>)
    requires Flooded(z, s)
    ensures z.Valid() && |s| == |z.cells|
  {}

  lemma LowerIsPositive(z: Maze, s: seq<int>, k: int, x: Cell)
    requires |s| == z.lin * z.col && Lower(z, s, k, x)
    ensures z.Inside(x) && 0 < ValueAt(z, s, x) < k
  {}

  // solve: flood from the end, then descend from the start. The end counts as open even if it was a wall.
  method Solve(ghost z: Maze, m: array<int>, lin: int, col: int, start: Cell, end: Cell)
    returns (found: bool, ghost path: seq<Cell>)
    requires z.Valid() && lin == z.lin && col == z.col && end == z.end && z.cells == m[..] && z.Inside(start)
    modifies m
    ensures Flooded(z, m[..])
    ensures found <==> z.Connected(start)
    ensures found ==> IsPath(z, path, start) && forall p :: IsPath(z, p, start) ==> |path| <= |p|
    ensures path != [] && path[|path| - 1] == start && StepsInOrder(z, m[..], path)
  {
    FloodStarts(z);
    AtInBounds(z, end);
    m[end.i * col + end.j] := 1;
    assert m[..] == z.cells[z.At(z.end) := 1];
    Mark(z, m, lin, col);
    found, path := Search(z, m, start, end, lin, col);
  }
}

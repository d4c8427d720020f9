/**
 Grid distances for labyrinth.c. A maze is a flat row-major sequence of cells, 0 for open and -1 for wall; the
 end cell always counts as open. Near says how far a cell is from the end.
 */
module MazeSpec {
  import opened PowersOfTwo

  datatype Cell = Cell(i: int, j: int)

  // Everything that stays fixed while a maze is solved.
  datatype Maze = Maze(lin: nat, col: nat, cells: seq<int>, end: Cell) {

    ghost predicate Valid() {
      && |cells| == lin * col && Inside(end)
      && forall k :: 0 <= k < |cells| ==> cells[k] == 0 || cells[k] == -1
    }

    predicate Inside(c: Cell) {
      0 <= c.i < lin && 0 <= c.j < col
    }

    function At(c: Cell): int { c.i * col + c.j }

    // The cell at a flat index.
    function CellOf(k: nat): Cell
      requires col > 0
    {
      Cell(k / col, k % col)
    }

    predicate Open(c: Cell)
      requires |cells| == lin * col
    {
      Inside(c) && (c == end || (0 <= At(c) < |cells| && cells[At(c)] == 0))
    }

    // c can be reached from the end in at most n moves between open neighbours.
    predicate Near(n: nat, c: Cell)
      requires |cells| == lin * col
      decreases n, 0
    {
      Inside(c) && if n == 0 then c == end else Near(n - 1, c) || (Open(c) && NearNeighbour(n - 1, c))
    }

    predicate NearNeighbour(n: nat, c: Cell)
      requires |cells| == lin * col
      decreases n, 1
    {
      Near(n, Up(c)) || Near(n, Down(c)) || Near(n, Left(c)) || Near(n, Right(c))
    }

    // ... and in no fewer.
    predicate Exactly(n: nat, c: Cell)
      requires |cells| == lin * col
    {
      Near(n, c) && (n > 0 ==> !Near(n - 1, c))
    }

    ghost predicate Connected(c: Cell)
      requires |cells| == lin * col
    {
      exists n: nat :: Near(n, c)
    }
  }

  function Up(c: Cell): Cell { Cell(c.i - 1, c.j) }
  function Down(c: Cell): Cell { Cell(c.i + 1, c.j) }
  function Left(c: Cell): Cell { Cell(c.i, c.j - 1) }
  function Right(c: Cell): Cell { Cell(c.i, c.j + 1) }

  predicate Adjacent(c: Cell, d: Cell) {
    d == Up(c) || d == Down(c) || d == Left(c) || d == Right(c)
  }

  // ---------------------------------------------------------------- flat indices

  lemma AtInBounds(z: Maze, c: Cell)
    requires z.Inside(c)
    ensures 0 <= z.At(c) < z.lin * z.col
  {
    MulMonotone(c.i, z.lin - 1, z.col);
    MulMonotone(0, c.i, z.col);
    assert (z.lin - 1) * z.col == z.lin * z.col - z.col;
  }

  // The row-major index determines the cell.
  lemma AtInjective(z: Maze, c: Cell, d: Cell)
    requires z.Inside(c) && z.Inside(d)
    ensures z.At(c) == z.At(d) <==> c == d
  {
    if c.i < d.i { MulMonotone(c.i + 1, d.i, z.col); assert (c.i + 1) * z.col == c.i * z.col + z.col; }
    if d.i < c.i { MulMonotone(d.i + 1, c.i, z.col); assert (d.i + 1) * z.col == d.i * z.col + z.col; }
  }

  lemma CellOfAt(z: Maze, k: nat)
    requires z.col > 0 && k < z.lin * z.col
    ensures z.Inside(z.CellOf(k)) && z.At(z.CellOf(k)) == k
  {
    var q := k / z.col;
    assert k == q * z.col + k % z.col;
    if q >= z.lin { MulMonotone(z.lin, q, z.col); }
    if q <= -1 { MulMonotone(q, -1, z.col); }
  }

  // ---------------------------------------------------------------- distances

  lemma {:induction false} NearMonotone(z: Maze, m: nat, n: nat, c: Cell)
    requires |z.cells| == z.lin * z.col && m <= n && z.Near(m, c)
    ensures z.Near(n, c)
  {
    if m < n { NearMonotone(z, m, n - 1, c); }
  }

  lemma {:induction false} NearIsOpen(z: Maze, n: nat, c: Cell)
    requires |z.cells| == z.lin * z.col && z.Near(n, c)
    ensures z.Open(c)
  {
    if n > 0 && z.Near(n - 1, c) { NearIsOpen(z, n - 1, c); }
  }

  // A neighbour of a near open cell is near.
  lemma NearSpreads(z: Maze, n: nat, c: Cell, d: Cell)
    requires |z.cells| == z.lin * z.col && z.Near(n, d) && z.Open(c) && Adjacent(c, d)
    ensures z.Near(n + 1, c)
  {}

  lemma {:induction false} LeastDistance(z: Maze, n: nat, c: Cell) returns (m: nat)
    requires |z.cells| == z.lin * z.col && z.Near(n, c)
    ensures m <= n && z.Exactly(m, c)
  {
    if n == 0 || !z.Near(n - 1, c) { return n; }
    m := LeastDistance(z, n - 1, c);
  }

  lemma DistanceIsUnique(z: Maze, m: nat, n: nat, c: Cell)
    requires |z.cells| == z.lin * z.col && z.Exactly(m, c) && z.Exactly(n, c)
    ensures m == n
  {
    if m < n { NearMonotone(z, m, n - 1, c); }
    if n < m { NearMonotone(z, n, m - 1, c); }
  }

  // Distances of open neighbours differ by at most one.
  lemma NeighbourDistance(z: Maze, m: nat, n: nat, c: Cell, d: Cell)
    requires |z.cells| == z.lin * z.col && z.Exactly(m, c) && z.Exactly(n, d) && Adjacent(c, d)
    ensures m <= n + 1
  {
    NearIsOpen(z, m, c);
    NearSpreads(z, n, c, d);
    if n + 1 < m { NearMonotone(z, n + 1, m - 1, c); }
  }

  // Every cell other than the end has a neighbour one step closer.
  lemma CloserNeighbour(z: Maze, n: nat, c: Cell) returns (d: Cell)
    requires |z.cells| == z.lin * z.col && n > 0 && z.Exactly(n, c)
    ensures Adjacent(c, d) && z.Exactly(n - 1, d)
  {
    NearIsOpen(z, n, c);
    assert z.NearNeighbour(n - 1, c);
    d := if z.Near(n - 1, Up(c)) then Up(c) else if z.Near(n - 1, Down(c)) then Down(c)
         else if z.Near(n - 1, Left(c)) then Left(c) else Right(c);
    if n >= 2 && z.Near(n - 2, d) { NearSpreads(z, n - 2, c, d); }
  }

  // ---------------------------------------------------------------- paths

  // A walk over open neighbouring cells from the end to c.
  ghost predicate IsPath(z: Maze, p: seq<Cell>, c: Cell)
    requires |z.cells| == z.lin * z.col
  {
    && p != [] && p[0] == z.end && p[|p| - 1] == c
    && (forall k :: 0 <= k < |p| ==> z.Open(p[k]))
    && (forall k :: 0 <= k < |p| - 1 ==> Adjacent(p[k + 1], p[k]))
  }

  lemma {:induction false} PathIsNear(z: Maze, p: seq<Cell>, c: Cell)
    requires |z.cells| == z.lin * z.col && IsPath(z, p, c)
    ensures z.Near(|p| - 1, c)
  {
    if |p| > 1 {
      var q := p[..|p| - 1];
      PathIsNear(z, q, p[|p| - 2]);
      NearSpreads(z, |p| - 2, c, p[|p| - 2]);
    }
  }

  lemma {:induction false} NearHasPath(z: Maze, n: nat, c: Cell) returns (p: seq<Cell>)
    requires |z.cells| == z.lin * z.col && z.Valid() && z.Exactly(n, c)
    ensures IsPath(z, p, c) && |p| == n + 1
  {
    if n == 0 { return [c]; }
    var d := CloserNeighbour(z, n, c);
    var q := NearHasPath(z, n - 1, d);
    NearIsOpen(z, n, c);
    p := q + [c];
  }

  // Exactly(n, c) says that the shortest path from the end to c makes n moves.
  lemma ExactlyIsShortestPath(z: Maze, n: nat, c: Cell)
    requires |z.cells| == z.lin * z.col && z.Valid()
    ensures z.Exactly(n, c) <==>
      (exists p :: IsPath(z, p, c) && |p| == n + 1) && (forall p :: IsPath(z, p, c) ==> |p| >= n + 1)
  {
    if z.Exactly(n, c) {
      var p := NearHasPath(z, n, c);
      forall q | IsPath(z, q, c)
        ensures |q| >= n + 1
      {
        PathIsNear(z, q, c);
        if |q| - 1 < n { NearMonotone(z, |q| - 1, n - 1, c); }
      }
    }
    if (exists p :: IsPath(z, p, c) && |p| == n + 1) && (forall p :: IsPath(z, p, c) ==> |p| >= n + 1) {
      var p :| IsPath(z, p, c) && |p| == n + 1;
      PathIsNear(z, p, c);
      var m := LeastDistance(z, n, c);
      var q := NearHasPath(z, m, c);
    }
  }

  // ---------------------------------------------------------------- everything near is near within lin * col

  ghost function NearSet(z: Maze, n: nat): set<int>
    requires |z.cells| == z.lin * z.col && z.col > 0
  {
    set k | 0 <= k < |z.cells| && z.Near(n, z.CellOf(k))
  }

  ghost function Range(n: nat): (r: set<int>)
    ensures |r| == n && forall k :: k in r <==> 0 <= k < n
  {
    if n == 0 then {} else Range(n - 1) + {n - 1}
  }

  ghost predicate Stable(z: Maze, n: nat)
    requires |z.cells| == z.lin * z.col
  {
    forall c :: z.Near(n + 1, c) ==> z.Near(n, c)
  }

  lemma {:induction false} StableForever(z: Maze, n: nat, m: nat, c: Cell)
    requires |z.cells| == z.lin * z.col && Stable(z, n) && n <= m && z.Near(m, c)
    ensures z.Near(n, c)
    decreases m
  {
    if m > n {
      if z.Near(m - 1, c) {
        StableForever(z, n, m - 1, c);
      } else {
        NearIsOpen(z, m, c);
        var d := CloserNeighbour(z, m, c);
        StableForever(z, n, m - 1, d);
        NearSpreads(z, n, c, d);
      }
    }
  }

  // Until it is stable, every wave adds a cell.
  lemma {:induction false} WavesGrow(z: Maze, n: nat)
    requires |z.cells| == z.lin * z.col && z.Valid() && forall m: nat :: m < n ==> !Stable(z, m)
    ensures z.col > 0 && |NearSet(z, n)| >= n + 1
  {
    if n == 0 {
      AtInBounds(z, z.end);
      CellOfAt(z, z.At(z.end));
      AtInjective(z, z.end, z.CellOf(z.At(z.end)));
      assert {z.At(z.end)} <= NearSet(z, 0);
      SubsetSize({z.At(z.end)}, NearSet(z, 0));
    } else {
      WavesGrow(z, n - 1);
      assert !Stable(z, n - 1);
      var c :| z.Near(n, c) && !z.Near(n - 1, c);
      AtInBounds(z, c);
      CellOfAt(z, z.At(c));
      AtInjective(z, c, z.CellOf(z.At(c)));
      forall k | k in NearSet(z, n - 1) ensures k in NearSet(z, n) { NearMonotone(z, n - 1, n, z.CellOf(k)); }
      assert NearSet(z, n - 1) + {z.At(c)} <= NearSet(z, n);
      SubsetSize(NearSet(z, n - 1) + {z.At(c)}, NearSet(z, n));
    }
  }

  lemma {:induction false} SubsetSize(a: set<int>, b: set<int>)
    requires a <= b
    ensures |a| <= |b|
  {
    assert b == a + (b - a);
  }

  // Connected cells are near within lin * col moves.
  lemma NearWithinSize(z: Maze, m: nat, c: Cell)
    requires |z.cells| == z.lin * z.col && z.Valid() && z.Near(m, c)
    ensures z.Near(|z.cells|, c)
  {
    var size := |z.cells|;
    if forall n: nat :: n < size ==> !Stable(z, n) {
      WavesGrow(z, size);
      SubsetSize(NearSet(z, size), Range(size));
    } else {
      var n: nat :| n < size && Stable(z, n);
      if m <= n { NearMonotone(z, m, n, c); } else { StableForever(z, n, m, c); }
      NearMonotone(z, n, size, c);
    }
  }
}

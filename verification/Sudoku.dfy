/**
 is_valid and sudoku of sudoku.c: backtracking over the cells in row-major order, in place. The source never
 looks at conflicts among the givens, so what it solves is stated relative to them: Completes says that the
 givens are kept, every cell is filled, and no cell that was filled in conflicts with anything.
 */
module Sudoku {

  type Grid = seq<seq<int>>

  predicate OnBoard(i: int, j: int) {
    0 <= i < 9 && 0 <= j < 9
  }

  // Digits 1 to 9, and 0 for an empty cell.
  ghost predicate Shape(g: Grid) {
    |g| == 9 && (forall i :: 0 <= i < 9 ==> |g[i]| == 9) &&
    forall i, j :: OnBoard(i, j) ==> 0 <= g[i][j] <= 9
  }

  // Distinct cells of one row, column or 3 x 3 box.
  predicate Peers(i: int, j: int, k: int, l: int) {
    (i != k || j != l) && (i == k || j == l || (i / 3 == k / 3 && j / 3 == l / 3))
  }

  ghost predicate Full(g: Grid)
    requires Shape(g)
  {
    forall i, j :: OnBoard(i, j) ==> g[i][j] != 0
  }

  ghost predicate Extends(g: Grid, h: Grid)
    requires Shape(g) && Shape(h)
  {
    forall i, j :: OnBoard(i, j) && g[i][j] != 0 ==> h[i][j] == g[i][j]
  }

  // Cells that are empty in g0 and filled in g differ from all their peers.
  ghost predicate PlacedLegally(g0: Grid, g: Grid)
    requires Shape(g0) && Shape(g)
  {
    forall i, j, k, l :: OnBoard(i, j) && OnBoard(k, l) && Peers(i, j, k, l) && g0[i][j] == 0 && g[i][j] != 0 ==>
      g[i][j] != g[k][l]
  }

  ghost predicate Completes(g0: Grid, h: Grid)
    requires Shape(g0)
  {
    Shape(h) && Full(h) && Extends(g0, h) && PlacedLegally(g0, h)
  }

  ghost predicate ConflictFree(g: Grid)
    requires Shape(g)
  {
    forall i, j, k, l :: OnBoard(i, j) && OnBoard(k, l) && Peers(i, j, k, l) && g[i][j] != 0 ==> g[i][j] != g[k][l]
  }

  // A legal solution of the puzzle g0.
  ghost predicate Solution(g0: Grid, h: Grid)
    requires Shape(g0)
  {
    Shape(h) && Full(h) && Extends(g0, h) && ConflictFree(h)
  }

  // From givens that do not conflict, the completions the solver looks for are exactly the legal solutions;
  // from givens that do, there is no legal solution, and a completion the solver returns is never one.
  lemma CompletionsAreSolutions(g0: Grid, h: Grid)
    requires Shape(g0)
    ensures ConflictFree(g0) ==> (Completes(g0, h) <==> Solution(g0, h))
    ensures !ConflictFree(g0) ==> !Solution(g0, h)
  {
    if ConflictFree(g0) && Completes(g0, h) {
      forall i, j, k, l | OnBoard(i, j) && OnBoard(k, l) && Peers(i, j, k, l)
        ensures h[i][j] != h[k][l]
      {
        assert Peers(k, l, i, j);
      }
    }
    if !ConflictFree(g0) && Shape(h) && Extends(g0, h) {
      var i, j, k, l :| OnBoard(i, j) && OnBoard(k, l) && Peers(i, j, k, l) && g0[i][j] != 0 && g0[i][j] == g0[k][l];
      assert h[i][j] == h[k][l];
    }
  }

  function Put(g: Grid, i: int, j: int, v: int): Grid
    requires |g| == 9 && OnBoard(i, j) && |g[i]| == 9
  {
    g[i := g[i][j := v]]
  }

  ghost function View(a: array2<int>): (g: Grid)
    requires a.Length0 == 9 && a.Length1 == 9
    reads a
    ensures |g| == 9 && forall i :: 0 <= i < 9 ==> |g[i]| == 9
    ensures forall i, j :: OnBoard(i, j) ==> g[i][j] == a[i, j]
  {
    seq(9, i requires 0 <= i < 9 reads a => seq(9, j requires 0 <= j < 9 reads a => a[i, j]))
  }

  lemma SameCells(g: Grid, h: Grid)
    requires |g| == 9 && |h| == 9 && forall i :: 0 <= i < 9 ==> |g[i]| == 9 && |h[i]| == 9
    requires forall i, j :: OnBoard(i, j) ==> g[i][j] == h[i][j]
    ensures g == h
  {
    forall i | 0 <= i < 9
      ensures g[i] == h[i]
    {
      assert forall j :: 0 <= j < 9 ==> OnBoard(i, j);
    }
  }

  // ---------------------------------------------------------------- one cell

  // No cell of the row, column or box of (row, column) holds the number.
  ghost predicate Fits(g: Grid, number: int, row: int, column: int)
    requires Shape(g)
  {
    forall k, l :: OnBoard(k, l) && (Peers(row, column, k, l) || (k == row && l == column)) ==> g[k][l] != number
  }

  method IsValid(number: int, puzzle: array2<int>, row: int, column: int) returns (ok: bool)
    requires puzzle.Length0 == 9 && puzzle.Length1 == 9 && Shape(View(puzzle)) && OnBoard(row, column)
    ensures ok <==> Fits(View(puzzle), number, row, column)
  {
    hide Shape, Fits, Peers;
    var i := 0;
    var sectorRow, sectorCol := 3 * (row / 3), 3 * (column / 3);
    var row1, row2, col1, col2 := (row + 2) % 3, (row + 4) % 3, (column + 2) % 3, (column + 4) % 3;
    ghost var g := View(puzzle);
    FitsCellByCell(g, number, row, column);
    while i < 9
      invariant 0 <= i <= 9
      invariant forall k :: 0 <= k < i ==> g[k][column] != number && g[row][k] != number
    {
      if puzzle[i, column] == number { return false; }
      if puzzle[row, i] == number { return false; }
      i := i + 1;
    }
    if puzzle[row1 + sectorRow, col1 + sectorCol] == number { return false; }
    if puzzle[row2 + sectorRow, col1 + sectorCol] == number { return false; }
    if puzzle[row1 + sectorRow, col2 + sectorCol] == number { return false; }
    if puzzle[row2 + sectorRow, col2 + sectorCol] == number { return false; }
    return true;
  }

  // The cells is_valid looks at are the ones that matter.
  lemma FitsCellByCell(g: Grid, number: int, row: int, column: int)
    requires Shape(g) && OnBoard(row, column)
    ensures |g| == 9 && forall i :: 0 <= i < 9 ==> |g[i]| == 9
    ensures var r1, r2 := (row + 2) % 3 + 3 * (row / 3), (row + 4) % 3 + 3 * (row / 3);
      var c1, c2 := (column + 2) % 3 + 3 * (column / 3), (column + 4) % 3 + 3 * (column / 3);
      && OnBoard(r1, c1) && OnBoard(r2, c2)
      && (Fits(g, number, row, column) <==>
            (forall k :: 0 <= k < 9 ==> g[k][column] != number && g[row][k] != number) &&
            g[r1][c1] != number && g[r2][c1] != number && g[r1][c2] != number && g[r2][c2] != number)
  {
    hide Shape, Fits, Peers;
    ShapeSizes(g);
    OtherCellsOfBox(row, column);
    FitsMeans(g, number, row, column);
    LinePeers(row, column);
    var r1, r2 := (row + 2) % 3 + 3 * (row / 3), (row + 4) % 3 + 3 * (row / 3);
    var c1, c2 := (column + 2) % 3 + 3 * (column / 3), (column + 4) % 3 + 3 * (column / 3);
    assert OnBoard(r1, c2) && OnBoard(r2, c1);
    if Fits(g, number, row, column) {
      forall k | 0 <= k < 9
        ensures g[k][column] != number && g[row][k] != number
      {
        assert OnBoard(k, column) && OnBoard(row, k);
      }
    }
  }

  lemma ShapeSizes(g: Grid)
    requires Shape(g)
    ensures |g| == 9 && forall i :: 0 <= i < 9 ==> |g[i]| == 9
  {}

  lemma FitsMeans(g: Grid, number: int, row: int, column: int)
    requires Shape(g)
    ensures |g| == 9 && forall i :: 0 <= i < 9 ==> |g[i]| == 9
    ensures Fits(g, number, row, column) <==>
      forall k, l :: OnBoard(k, l) && (Peers(row, column, k, l) || (k == row && l == column)) ==> g[k][l] != number
  {}

  lemma LinePeers(row: int, column: int)
    ensures forall k, l :: k == row || l == column ==> Peers(row, column, k, l) || (k == row && l == column)
  {}

  // The four cells tested last are exactly the peers that share neither row nor column.
  lemma OtherCellsOfBox(row: int, column: int)
    requires OnBoard(row, column)
    ensures var r1, r2 := (row + 2) % 3 + 3 * (row / 3), (row + 4) % 3 + 3 * (row / 3);
      var c1, c2 := (column + 2) % 3 + 3 * (column / 3), (column + 4) % 3 + 3 * (column / 3);
      && OnBoard(r1, c1) && OnBoard(r2, c2)
      && forall k, l :: OnBoard(k, l) ==>
           (Peers(row, column, k, l) && k != row && l != column <==> (k == r1 || k == r2) && (l == c1 || l == c2))
  {
    OthersOfThree(row);
    OthersOfThree(column);
  }

  lemma OthersOfThree(x: int)
    requires 0 <= x < 9
    ensures var a, b := (x + 2) % 3 + 3 * (x / 3), (x + 4) % 3 + 3 * (x / 3);
      && 0 <= a < 9 && 0 <= b < 9
      && forall k :: 0 <= k < 9 ==> (k / 3 == x / 3 && k != x <==> k == a || k == b)
  {}

  // ---------------------------------------------------------------- the search

  // The cells before (row, column) in row-major order are filled.
  ghost predicate FilledBefore(g: Grid, row: int, column: int)
    requires Shape(g)
  {
    forall i, j :: OnBoard(i, j) && (i < row || (i == row && j < column)) ==> g[i][j] != 0
  }

  // g is g0 with some empty cells filled in legally.
  ghost predicate Partial(g0: Grid, g: Grid) {
    Shape(g0) && Shape(g) && Extends(g0, g) && PlacedLegally(g0, g)
  }

  ghost predicate Reachable(g0: Grid, g: Grid, h: Grid) {
    Shape(g0) && Shape(g) && Completes(g0, h) && Extends(g, h)
  }

  // Placing a fitting number keeps the grid legal.
  lemma PlaceKeepsLegal(g0: Grid, g: Grid, row: int, column: int, n: int)
    requires Partial(g0, g) && OnBoard(row, column) && g[row][column] == 0 && 1 <= n <= 9 && Fits(g, n, row, column)
    ensures Partial(g0, Put(g, row, column, n)) && Extends(g, Put(g, row, column, n))
  {
    var g' := Put(g, row, column, n);
    forall i, j, k, l | OnBoard(i, j) && OnBoard(k, l) && Peers(i, j, k, l) && g0[i][j] == 0 && g'[i][j] != 0
      ensures g'[i][j] != g'[k][l]
    {
      assert Peers(k, l, i, j);
    }
  }

  // A completion that has n in the cell is a completion of the grid with n placed there.
  lemma CompletionThroughPlacement(g0: Grid, g: Grid, row: int, column: int, n: int, h: Grid)
    requires Partial(g0, g) && OnBoard(row, column) && g[row][column] == 0 && 1 <= n <= 9
    requires Reachable(g0, g, h) && h[row][column] == n
    ensures Reachable(g0, Put(g, row, column, n), h)
  {}

  // A number that does not fit is in no completion.
  lemma MisfitIsInNoCompletion(g0: Grid, g: Grid, row: int, column: int, n: int, h: Grid)
    requires Partial(g0, g) && OnBoard(row, column) && g[row][column] == 0 && 1 <= n <= 9
    requires !Fits(g, n, row, column) && Reachable(g0, g, h)
    ensures h[row][column] != n
  {
    var k, l :| OnBoard(k, l) && (Peers(row, column, k, l) || (k == row && l == column)) && g[k][l] == n;
    assert h[k][l] == n;
    assert g0[row][column] == 0;
  }

  // g is h, or has the smaller digit in the first cell, in row-major order, where they differ.
  ghost predicate NotAfter(g: Grid, h: Grid)
    requires Shape(g) && Shape(h)
  {
    g == h || exists i, j :: OnBoard(i, j) && g[i][j] < h[i][j] && SameBefore(g, h, i, j)
  }

  ghost predicate SameBefore(g: Grid, h: Grid, i: int, j: int)
    requires Shape(g) && Shape(h)
  {
    forall k, l :: OnBoard(k, l) && (k < i || (k == i && l < j)) ==> g[k][l] == h[k][l]
  }

  // No completion of g comes before h.
  ghost predicate Earliest(g0: Grid, g: Grid, h: Grid)
    requires Shape(h)
  {
    forall other :: Reachable(g0, g, other) ==> NotAfter(h, other)
  }

  // Completions of g with n in the first empty cell come before those with more there.
  lemma SmallerDigitFirst(g0: Grid, g: Grid, row: int, column: int, n: int, h: Grid)
    requires Partial(g0, g) && FilledBefore(g, row, column) && OnBoard(row, column) && g[row][column] == 0
    requires 1 <= n <= 9 && Reachable(g0, Put(g, row, column, n), h)
    requires Earliest(g0, Put(g, row, column, n), h)
    requires forall other :: Reachable(g0, g, other) ==> other[row][column] >= n
    ensures Earliest(g0, g, h)
  {
    hide PlacedLegally;
    forall other | Reachable(g0, g, other)
      ensures NotAfter(h, other)
    {
      if other[row][column] == n {
        CompletionThroughPlacement(g0, g, row, column, n, other);
      } else {
        SameBeforeEmpty(g0, g, row, column, n, h, other);
      }
    }
  }

  lemma SameBeforeEmpty(g0: Grid, g: Grid, row: int, column: int, n: int, h: Grid, other: Grid)
    requires Partial(g0, g) && FilledBefore(g, row, column) && OnBoard(row, column) && g[row][column] == 0
    requires 1 <= n <= 9 && Reachable(g0, Put(g, row, column, n), h) && Reachable(g0, g, other)
    ensures SameBefore(h, other, row, column) && h[row][column] == n
  {
    hide PlacedLegally;
    var g' := Put(g, row, column, n);
    forall k, l | OnBoard(k, l) && (k < row || (k == row && l < column))
      ensures h[k][l] == other[k][l]
    {
      assert g'[k][l] == g[k][l] != 0;
    }
  }

  // A grid without empty cells is its only completion.
  lemma FullIsEarliest(g0: Grid, g: Grid)
    requires Partial(g0, g) && FilledBefore(g, 9, 0)
    ensures Earliest(g0, g, g)
  {
    hide PlacedLegally;
    forall other | Reachable(g0, g, other)
      ensures NotAfter(g, other)
    {
      SameCells(g, other);
    }
  }

  ghost function Remaining(row: int, column: int): int { 81 - 9 * row - column }

  // sudoku: true with the first completion (comparing digits in row-major order) in place, or false with the grid as
  // it was and no completion.
  method Solve(puzzle: array2<int>, row: int, column: int, ghost g0: Grid) returns (solved: bool)
    requires puzzle.Length0 == 9 && puzzle.Length1 == 9
    requires 0 <= row <= 9 && 0 <= column < 9 && (row == 9 ==> column == 0)
    requires Partial(g0, View(puzzle)) && FilledBefore(View(puzzle), row, column)
    modifies puzzle
    ensures solved ==> Reachable(g0, old(View(puzzle)), View(puzzle))
    ensures solved ==> Earliest(g0, old(View(puzzle)), View(puzzle))
    ensures !solved ==> View(puzzle) == old(View(puzzle)) && forall h :: !Reachable(g0, View(puzzle), h)
    decreases Remaining(row, column)
  {
    hide PlacedLegally, Fits, Earliest;
    ghost var g := View(puzzle);
    if row == 9 {
      FullIsEarliest(g0, g);
      return true;
    }
    if puzzle[row, column] != 0 {
      solved := SolveNext(puzzle, row, column, g0);
      return;
    }
    var next := 1;
    while next < 10
      invariant 1 <= next <= 10 && View(puzzle) == g
      invariant forall h :: Reachable(g0, g, h) ==> h[row][column] >= next
    {
      var ok := IsValid(next, puzzle, row, column);
      if ok {
        PlaceKeepsLegal(g0, g, row, column, next);
        puzzle[row, column] := next;
        SameCells(View(puzzle), Put(g, row, column, next));
        solved := SolveNext(puzzle, row, column, g0);
        if solved {
          SmallerDigitFirst(g0, g, row, column, next, View(puzzle));
          return true;
        }
        puzzle[row, column] := 0;
        SameCells(View(puzzle), g);
      }
      forall h | Reachable(g0, g, h)
        ensures h[row][column] != next
      {
        if ok {
          if h[row][column] == next { CompletionThroughPlacement(g0, g, row, column, next, h); }
        } else {
          MisfitIsInNoCompletion(g0, g, row, column, next, h);
        }
      }
      next := next + 1;
    }
    return false;
  }

  // Lines 46-50 and 57-61: the next cell in row-major order.
  method SolveNext(puzzle: array2<int>, row: int, column: int, ghost g0: Grid) returns (solved: bool)
    requires puzzle.Length0 == 9 && puzzle.Length1 == 9 && OnBoard(row, column)
    requires Partial(g0, View(puzzle)) && FilledBefore(View(puzzle), row, column) && View(puzzle)[row][column] != 0
    modifies puzzle
    ensures solved ==> Reachable(g0, old(View(puzzle)), View(puzzle))
    ensures solved ==> Earliest(g0, old(View(puzzle)), View(puzzle))
    ensures !solved ==> View(puzzle) == old(View(puzzle)) && forall h :: !Reachable(g0, View(puzzle), h)
    decreases Remaining(row, column), 0
  {
    hide PlacedLegally, Reachable, Earliest;
    if column == 8 {
      solved := Solve(puzzle, row + 1, 0, g0);
    } else {
      solved := Solve(puzzle, row, column + 1, g0);
    }
  }

  // The whole puzzle: solved exactly when a completion exists, and legal exactly when the givens are.
  method SolvePuzzle(puzzle: array2<int>) returns (solved: bool)
    requires puzzle.Length0 == 9 && puzzle.Length1 == 9 && Shape(View(puzzle))
    modifies puzzle
    ensures solved ==> Completes(old(View(puzzle)), View(puzzle))
    ensures solved ==> forall h :: Completes(old(View(puzzle)), h) ==> NotAfter(View(puzzle), h)
    ensures solved ==> (Solution(old(View(puzzle)), View(puzzle)) <==> ConflictFree(old(View(puzzle))))
    ensures !solved ==> View(puzzle) == old(View(puzzle)) && forall h :: !Solution(View(puzzle), h)
  {
    hide Shape, Extends, PlacedLegally, ConflictFree, Full, NotAfter;
    ghost var g := View(puzzle);
    NothingPlaced(g);
    solved := Solve(puzzle, 0, 0, g);
    forall h
      ensures Solution(g, h) ==> Reachable(g, g, h)
      ensures Completes(g, h) ==> (Solution(g, h) <==> ConflictFree(g))
      ensures Completes(g, h) ==> Reachable(g, g, h)
    {
      CompletionsAreSolutions(g, h);
      if Completes(g, h) { CompletesExtends(g, h); }
    }
  }

  lemma CompletesExtends(g: Grid, h: Grid)
    requires Shape(g) && Completes(g, h)
    ensures Reachable(g, g, h)
  {
    hide PlacedLegally;
  }

  lemma NothingPlaced(g: Grid)
    requires Shape(g)
    ensures Partial(g, g) && FilledBefore(g, 0, 0)
  {}
}

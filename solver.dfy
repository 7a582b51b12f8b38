/** The plain integer sudoku of the HTTP layer: a 9x9 board of ints where 0
    marks an empty cell, the placement test, the empty-cell scan and the
    backtracking solver, all working on the board in place. */
module Solver {
  import opened Common

  /** The value of an integer board. */
  type IntGrid = g: seq<seq<int>> | IsSquare(g)
    witness seq(BoardSize, i => seq(BoardSize, j => 0))

  /** The board is a 9x9 array. */
  predicate IsBoard(b: array2<int>) {
    b.Length0 == BoardSize && b.Length1 == BoardSize
  }

  /** The contents of the array, row by row. */
  ghost function Snapshot(b: array2<int>): (g: IntGrid)
    requires IsBoard(b)
    reads b
    ensures forall i, j :: InBoard((i, j)) ==> g[i][j] == b[i, j]
  {
    seq(BoardSize, i requires 0 <= i < BoardSize reads b =>
      seq(BoardSize, j requires 0 <= j < BoardSize reads b => b[i, j]))
  }

  /** val is already in the row, the column or the 3x3 block of (row, col),
      the cell itself included. */
  ghost predicate Occurs(g: IntGrid, row: int, col: int, val: int) {
    exists i, j :: InBoard((i, j)) && SameUnit((i, j), (row, col)) && g[i][j] == val
  }

  /** The empty cells. */
  function ZeroCells(g: IntGrid): set<Pos> {
    set i, j | 0 <= i < BoardSize && 0 <= j < BoardSize && g[i][j] == 0 :: (i, j)
  }

  /** No two distinct cells of one row, column or block hold the same nonzero value. */
  ghost predicate ConflictFree(g: IntGrid) {
    forall i, j, r, c ::
      (InBoard((i, j)) && InBoard((r, c)) && (i, j) != (r, c) && SameUnit((i, j), (r, c)) && g[i][j] != 0)
      ==> g[i][j] != g[r][c]
  }

  /** Every cell is 0 or a digit. */
  ghost predicate InRange(g: IntGrid) {
    forall i, j :: InBoard((i, j)) ==> 0 <= g[i][j] <= BoardSize
  }

  /** h keeps every nonzero cell of g. */
  ghost predicate KeepsGivens(g: IntGrid, h: IntGrid) {
    forall i, j :: InBoard((i, j)) && g[i][j] != 0 ==> h[i][j] == g[i][j]
  }

  /** `is_valid_placement`: scans the row, then the column, then the block of
      (row, col) and answers false at the first cell holding val. */
  method IsValidPlacement(b: array2<int>, row: int, col: int, val: int) returns (ok: bool)
    requires IsBoard(b) && InBoard((row, col))
    ensures ok <==> !Occurs(Snapshot(b), row, col, val)
  {
    for c := 0 to BoardSize
      invariant forall j :: 0 <= j < c ==> b[row, j] != val
    {
      if b[row, c] == val {
        assert Snapshot(b)[row][c] == val && SameUnit((row, c), (row, col));
        return false;
      }
    }
    for r := 0 to BoardSize
      invariant forall i :: 0 <= i < r ==> b[i, col] != val
    {
      if b[r, col] == val {
        assert Snapshot(b)[r][col] == val && SameUnit((r, col), (row, col));
        return false;
      }
    }
    BlockStartFacts(row);
    BlockStartFacts(col);
    var blockRow := (row / 3) * 3;
    var blockCol := (col / 3) * 3;
    for r := blockRow to blockRow + 3
      invariant forall i, j :: blockRow <= i < r && blockCol <= j < blockCol + 3 ==> b[i, j] != val
    {
      for c := blockCol to blockCol + 3
        invariant forall i, j :: blockRow <= i < r && blockCol <= j < blockCol + 3 ==> b[i, j] != val
        invariant forall j :: blockCol <= j < c ==> b[r, j] != val
      {
        if b[r, c] == val {
          BlockStartFacts(r);
          BlockStartFacts(c);
          assert Snapshot(b)[r][c] == val && SameUnit((r, c), (row, col));
          return false;
        }
      }
    }
    forall i, j | InBoard((i, j)) && SameUnit((i, j), (row, col)) ensures Snapshot(b)[i][j] != val {
      BlockStartFacts(i);
      BlockStartFacts(j);
    }
    return true;
  }

  /** (i, j) comes before p in row-major order. */
  predicate Before(i: int, j: int, p: Pos) {
    i < p.0 || (i == p.0 && j < p.1)
  }

  /** `find_empty`: the first empty cell in row-major order, or None when the
      board has none. */
  method FindEmpty(b: array2<int>) returns (r: Option<Pos>)
    requires IsBoard(b)
    ensures r.None? <==> ZeroCells(Snapshot(b)) == {}
    ensures r.Some? ==> InBoard(r.value) && b[r.value.0, r.value.1] == 0
    ensures r.Some? ==> forall i, j :: InBoard((i, j)) && Before(i, j, r.value) ==> b[i, j] != 0
  {
    for i := 0 to BoardSize
      invariant forall a, c :: 0 <= a < i && 0 <= c < BoardSize ==> b[a, c] != 0
    {
      for j := 0 to BoardSize
        invariant forall a, c :: 0 <= a < i && 0 <= c < BoardSize ==> b[a, c] != 0
        invariant forall c :: 0 <= c < j ==> b[i, c] != 0
      {
        if b[i, j] == 0 {
          assert (i, j) in ZeroCells(Snapshot(b));
          return Some((i, j));
        }
      }
    }
    assert forall p :: p !in ZeroCells(Snapshot(b));
    return None;
  }

  /** Placing a value that does not yet occur in its row, column or block
      keeps a conflict-free board conflict-free. */
  lemma PlacementKeepsConflictFree(g: IntGrid, p: Pos, v: int)
    requires InBoard(p) && ConflictFree(g) && !Occurs(g, p.0, p.1, v)
    ensures ConflictFree(Put(g, p, v))
  {
    var h := Put(g, p, v);
    forall i, j, r, c | InBoard((i, j)) && InBoard((r, c)) && (i, j) != (r, c) && SameUnit((i, j), (r, c))
                        && h[i][j] != 0
      ensures h[i][j] != h[r][c]
    {
      if (i, j) == p {
        assert g[r][c] != v by { assert SameUnit((r, c), p); }
      } else if (r, c) == p {
        assert SameUnit((i, j), p);
      }
    }
  }

  /** Filling the empty cell p with a nonzero value removes exactly p from the
      empty cells. */
  lemma FillShrinksZeros(g: IntGrid, p: Pos, v: int)
    requires InBoard(p) && g[p.0][p.1] == 0 && v != 0
    ensures ZeroCells(Put(g, p, v)) == ZeroCells(g) - {p}
    ensures ZeroCells(Put(g, p, v)) < ZeroCells(g)
  {
    assert p in ZeroCells(g);
  }

  /** `board[row][col] = v`. */
  method Place(b: array2<int>, row: int, col: int, v: int)
    requires IsBoard(b) && InBoard((row, col))
    modifies b
    ensures Snapshot(b) == Put(old(Snapshot(b)), (row, col), v)
  {
    b[row, col] := v;
    SquareExtensionality(Snapshot(b), Put(old(Snapshot(b)), (row, col), v));
  }

  /** Every empty cell of g holds a digit in h. */
  ghost predicate FillsBlanks(g: IntGrid, h: IntGrid) {
    forall i, j :: InBoard((i, j)) && g[i][j] == 0 ==> 1 <= h[i][j] <= BoardSize
  }

  /** A board without empty cells is its own solution. */
  lemma FullIsSolved(g: IntGrid)
    requires ZeroCells(g) == {}
    ensures KeepsGivens(g, g) && FillsBlanks(g, g)
  {
    forall i, j | InBoard((i, j)) ensures g[i][j] != 0 {
      assert (i, j) !in ZeroCells(g);
    }
  }

  /** A solution of the board with v placed at the empty cell p is a
      solution of the board itself. */
  lemma SolvedAfterPlacement(g: IntGrid, p: Pos, v: int, h: IntGrid)
    requires InBoard(p) && g[p.0][p.1] == 0 && 1 <= v <= BoardSize
    requires KeepsGivens(Put(g, p, v), h) && FillsBlanks(Put(g, p, v), h)
    ensures KeepsGivens(g, h) && FillsBlanks(g, h)
  {
    var g1 := Put(g, p, v);
    forall i, j | InBoard((i, j)) && g[i][j] == 0 ensures 1 <= h[i][j] <= BoardSize {
      if (i, j) == p {
        assert g1[i][j] == v;
      }
    }
  }

  /** Placing a value at an empty cell and then 0 again restores the board. */
  lemma PutUndone(g: IntGrid, p: Pos, v: int)
    requires InBoard(p) && g[p.0][p.1] == 0
    ensures Put(Put(g, p, v), p, 0) == g
  {
    SquareExtensionality(Put(Put(g, p, v), p, 0), g);
  }

  /** `solve_sudoku`: fill the first empty cell with each digit 1..9 that
      passes `is_valid_placement`, recurse, and reset the cell to 0 when the
      recursion fails. Each recursive call sees one empty cell fewer. */
  method SolveSudoku(b: array2<int>) returns (solved: bool)
    requires IsBoard(b)
    modifies b
    decreases ZeroCells(Snapshot(b))
    ensures solved ==> ZeroCells(Snapshot(b)) == {}
    ensures solved ==> KeepsGivens(old(Snapshot(b)), Snapshot(b)) && FillsBlanks(old(Snapshot(b)), Snapshot(b))
    ensures solved && old(ConflictFree(Snapshot(b))) ==> ConflictFree(Snapshot(b))
    ensures !solved ==> Snapshot(b) == old(Snapshot(b))
  {
    ghost var g0 := Snapshot(b);
    var emptyCell := FindEmpty(b);
    if emptyCell.None? {
      FullIsSolved(g0);
      return true;
    }
    var (row, col) := emptyCell.value;
    assert g0[row][col] == 0;
    for num := 1 to 10
      invariant Snapshot(b) == g0
    {
      var ok := IsValidPlacement(b, row, col, num);
      if ok {
        Place(b, row, col, num);
        FillShrinksZeros(g0, (row, col), num);
        if ConflictFree(g0) {
          PlacementKeepsConflictFree(g0, (row, col), num);
        }
        solved := SolveSudoku(b);
        if solved {
          SolvedAfterPlacement(g0, (row, col), num, Snapshot(b));
          return true;
        }
        Place(b, row, col, 0);
        PutUndone(g0, (row, col), num);
      }
    }
    return false;
  }
}

/** Shared vocabulary of the quantum sudoku engine: board geometry,
    optional values and the errors the engine raises. */
module Common {

  /** The side of the board and of one 3x3 block. */
  const BoardSize: int := 9
  const BlockSize: int := 3

  datatype Option<+T> = None | Some(value: T)

  /** Whether an operation returned normally or raised `ValueError`. */
  datatype Outcome = Pass | Fail(error: Error)

  /** A position (row, column) on the board. */
  type Pos = (int, int)

  /** The errors `ValueError` is raised with, one constructor per message. */
  datatype Error =
    | AlreadyFixed(row: int, col: int, value: int)
    | InvalidCandidates(row: int, col: int)
    | EmptyCandidates
    | RowDuplicate(row: int)
    | ColumnDuplicate(col: int)
    | BlockDuplicate(blockRow: int, blockCol: int)
    | NoCandidates(row: int, col: int)

  /** A 9x9 table, one entry per cell. */
  predicate IsSquare<T>(g: seq<seq<T>>) {
    |g| == BoardSize && forall i :: 0 <= i < |g| ==> |g[i]| == BoardSize
  }

  /** g with the entry at p replaced by v. */
  function Put<T(==)>(g: seq<seq<T>>, p: Pos, v: T): (h: seq<seq<T>>)
    requires IsSquare(g) && InBoard(p)
    ensures IsSquare(h) && h[p.0][p.1] == v
    ensures forall i, j :: InBoard((i, j)) && (i, j) != p ==> h[i][j] == g[i][j]
  {
    g[p.0 := g[p.0][p.1 := v]]
  }

  /** Two 9x9 tables with the same entries are equal. */
  lemma SquareExtensionality<T>(g: seq<seq<T>>, h: seq<seq<T>>)
    requires IsSquare(g) && IsSquare(h)
    requires forall i, j :: InBoard((i, j)) ==> g[i][j] == h[i][j]
    ensures g == h
  {
    forall i | 0 <= i < BoardSize ensures g[i] == h[i] {
      assert forall j :: 0 <= j < BoardSize ==> g[i][j] == h[i][j];
    }
  }

  /** The digits 1..9 a cell may hold. */
  function Digits(): (ds: set<int>)
    ensures forall d :: d in ds <==> 1 <= d <= BoardSize
  {
    {1, 2, 3, 4, 5, 6, 7, 8, 9}
  }

  predicate InBoard(p: Pos) {
    0 <= p.0 < BoardSize && 0 <= p.1 < BoardSize
  }

  /** First row (or column) of the block containing row (or column) i;
      Python's `//` and Dafny's `/` agree on the non-negative indices used. */
  function BlockStart(i: int): int {
    (i / BlockSize) * BlockSize
  }

  /** The block of a row (or column) index on the board starts at 0, 3 or 6
      and spans the index. */
  lemma BlockStartFacts(i: int)
    requires 0 <= i < BoardSize
    ensures BlockStart(i) in {0, 3, 6}
    ensures BlockStart(i) <= i < BlockStart(i) + BlockSize
  {
  }

  predicate SameBlock(p: Pos, q: Pos) {
    BlockStart(p.0) == BlockStart(q.0) && BlockStart(p.1) == BlockStart(q.1)
  }

  /** p and q share a row, a column or a block (p == q included). */
  predicate SameUnit(p: Pos, q: Pos) {
    p.0 == q.0 || p.1 == q.1 || SameBlock(p, q)
  }

  /** Two distinct cells of the board are peers when they share a unit. */
  predicate IsPeer(p: Pos, q: Pos) {
    InBoard(p) && InBoard(q) && p != q && SameUnit(p, q)
  }
}

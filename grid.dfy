/** The read-only queries of `QuantumSudokuBoard`, as functions over the
    value of its 9x9 grid of cells. */
module Grid {
  import opened Common
  import opened Cell

  /** The value of the board: nine rows of nine cells. */
  type Grid = g: seq<seq<CellState>> | IsSquare(g)
    witness seq(BoardSize, i => seq(BoardSize, j => CellState(None, map[])))

  function At(g: Grid, p: Pos): CellState
    requires InBoard(p)
  {
    g[p.0][p.1]
  }

  // ---------------------------------------------------------------------
  // get_neighbors

  /** The k-th index in 0..8 other than i. */
  function Skip(i: int, k: int): int {
    if k < i then k else k + 1
  }

  /** The k-th (k in {0, 1}) index of i's block other than i itself. */
  function OtherInBlock(i: int, k: int): int {
    BlockStart(i) + Skip(i - BlockStart(i), k)
  }

  /** `get_neighbors(row, col)`: the rest of the row, the rest of the column,
      then the four cells of the block in neither. `get_neighbors` builds a set and
      lists it in an unspecified order; propagation does not depend on it. */
  function Neighbors(row: int, col: int): (ns: seq<Pos>)
    ensures |ns| == 20
    ensures InBoard((row, col)) ==> forall a :: 0 <= a < |ns| ==> IsPeer((row, col), ns[a])
  {
    var ns := seq(8, k => (row, Skip(col, k)))
      + seq(8, k => (Skip(row, k), col))
      + seq(4, k => (OtherInBlock(row, k / 2), OtherInBlock(col, k % 2)));
    if InBoard((row, col)) then
      ListedArePeers(row, col);
      assert forall a :: 0 <= a < 20 ==>
        ns[a] == if a < 8 then (row, Skip(col, a))
                 else if a < 16 then (Skip(row, a - 8), col)
                 else (OtherInBlock(row, (a - 16) / 2), OtherInBlock(col, (a - 16) % 2));
      ns
    else ns
  }

  /** Each of the three parts of `get_neighbors` lists peers only. */
  lemma ListedArePeers(row: int, col: int)
    requires InBoard((row, col))
    ensures forall k :: 0 <= k < 8 ==> IsPeer((row, col), (row, Skip(col, k)))
    ensures forall k :: 0 <= k < 8 ==> IsPeer((row, col), (Skip(row, k), col))
    ensures forall k :: 0 <= k < 4 ==> IsPeer((row, col), (OtherInBlock(row, k / 2), OtherInBlock(col, k % 2)))
  {
    OtherInBlockFacts(row);
    OtherInBlockFacts(col);
  }

  lemma OtherInBlockFacts(i: int)
    requires 0 <= i < BoardSize
    ensures forall k :: 0 <= k < 2 ==>
      BlockStart(OtherInBlock(i, k)) == BlockStart(i) && OtherInBlock(i, k) != i
      && 0 <= OtherInBlock(i, k) < BoardSize
    ensures OtherInBlock(i, 0) != OtherInBlock(i, 1)
    ensures forall x :: 0 <= x < BoardSize && BlockStart(x) == BlockStart(i) && x != i ==>
      x == OtherInBlock(i, 0) || x == OtherInBlock(i, 1)
  {
    BlockStartFacts(i);
    forall x | 0 <= x < BoardSize && BlockStart(x) == BlockStart(i)
      ensures BlockStart(i) <= x < BlockStart(i) + BlockSize
    {
      BlockStartFacts(x);
    }
  }

  /** Where the a-th neighbour comes from: the row part, the column part or
      the rest of the block. */
  lemma NeighborAt(row: int, col: int, a: int)
    requires InBoard((row, col)) && 0 <= a < 20
    ensures |Neighbors(row, col)| == 20
    ensures a < 8 ==> Neighbors(row, col)[a] == (row, Skip(col, a))
    ensures 8 <= a < 16 ==> Neighbors(row, col)[a] == (Skip(row, a - 8), col)
    ensures 16 <= a ==>
              Neighbors(row, col)[a] == (OtherInBlock(row, (a - 16) / 2), OtherInBlock(col, (a - 16) % 2))
  {
  }

  lemma NeighborsDistinct(row: int, col: int)
    requires InBoard((row, col))
    ensures |Neighbors(row, col)| == 20
    ensures forall a, b :: 0 <= a < b < |Neighbors(row, col)| ==>
      Neighbors(row, col)[a] != Neighbors(row, col)[b]
  {
    var ns := Neighbors(row, col);
    forall a, b | 0 <= a < b < 20 ensures ns[a] != ns[b] {
      NeighborPairDistinct(row, col, a, b);
    }
  }

  lemma NeighborPairDistinct(row: int, col: int, a: int, b: int)
    requires InBoard((row, col)) && 0 <= a < b < 20
    ensures |Neighbors(row, col)| == 20 && Neighbors(row, col)[a] != Neighbors(row, col)[b]
  {
    NeighborAt(row, col, a);
    NeighborAt(row, col, b);
    if b < 8 {
    } else if b < 16 {
      if a >= 8 {
      } else {
        assert Skip(row, b - 8) != row;
      }
    } else {
      OtherInBlockFacts(row);
      OtherInBlockFacts(col);
      if a >= 16 {
        assert (a - 16) / 2 != (b - 16) / 2 || (a - 16) % 2 != (b - 16) % 2;
      }
    }
  }

  lemma NeighborsSound(row: int, col: int)
    requires InBoard((row, col))
    ensures forall p :: p in Neighbors(row, col) ==> IsPeer((row, col), p)
  {
    var ns := Neighbors(row, col);
    OtherInBlockFacts(row);
    OtherInBlockFacts(col);
    forall a | 0 <= a < |ns| ensures IsPeer((row, col), ns[a]) {
      NeighborAt(row, col, a);
    }
  }

  lemma NeighborsComplete(row: int, col: int)
    requires InBoard((row, col))
    ensures forall p :: IsPeer((row, col), p) ==> p in Neighbors(row, col)
  {
    var ns := Neighbors(row, col);
    OtherInBlockFacts(row);
    OtherInBlockFacts(col);
    forall p | IsPeer((row, col), p) ensures p in ns {
      if p.0 == row {
        var a := if p.1 < col then p.1 else p.1 - 1;
        NeighborAt(row, col, a);
      } else if p.1 == col {
        var a := if p.0 < row then p.0 else p.0 - 1;
        NeighborAt(row, col, 8 + a);
      } else {
        var x := if p.0 == OtherInBlock(row, 0) then 0 else 1;
        var y := if p.1 == OtherInBlock(col, 0) then 0 else 1;
        NeighborAt(row, col, 16 + 2 * x + y);
      }
    }
  }

  /** `get_neighbors` lists exactly the 20 peers of (row, col), each once,
      and never (row, col) itself. */
  lemma NeighborsArePeers(row: int, col: int)
    requires InBoard((row, col))
    ensures |Neighbors(row, col)| == 20
    ensures forall a, b :: 0 <= a < b < |Neighbors(row, col)| ==>
      Neighbors(row, col)[a] != Neighbors(row, col)[b]
    ensures forall p :: p in Neighbors(row, col) <==> IsPeer((row, col), p)
    ensures (row, col) !in Neighbors(row, col)
  {
    NeighborsDistinct(row, col);
    NeighborsSound(row, col);
    NeighborsComplete(row, col);
  }

  // ---------------------------------------------------------------------
  // get_row_values, get_column_values, get_block_values

  /** The fixed values (or None) of the cells of one row, column or block,
      in the order `get_row_values`, `get_column_values` and `get_block_values`
      scan them. */
  function RowUnit(g: Grid, row: int): seq<Option<int>>
    requires 0 <= row < BoardSize
  {
    seq(BoardSize, j requires 0 <= j < BoardSize => g[row][j].fixedValue)
  }

  function ColumnUnit(g: Grid, col: int): seq<Option<int>>
    requires 0 <= col < BoardSize
  {
    seq(BoardSize, i requires 0 <= i < BoardSize => g[i][col].fixedValue)
  }

  /** The block whose top-left cell is (br, bc), row by row. */
  function BlockUnit(g: Grid, br: int, bc: int): seq<Option<int>>
    requires br in {0, 3, 6} && bc in {0, 3, 6}
  {
    seq(BoardSize, k requires 0 <= k < BoardSize => g[br + k / BlockSize][bc + k % BlockSize].fixedValue)
  }

  /** The set of values a unit holds. */
  function FixedValues(u: seq<Option<int>>): set<int> {
    if u == [] then {}
    else (if u[0].Some? then {u[0].value} else {}) + FixedValues(u[1..])
  }

  /** How many cells of a unit are fixed. */
  function FixedCount(u: seq<Option<int>>): nat {
    if u == [] then 0
    else (if u[0].Some? then 1 else 0) + FixedCount(u[1..])
  }

  lemma {:induction false} FixedValuesMember(u: seq<Option<int>>, d: int)
    ensures d in FixedValues(u) <==> exists k :: 0 <= k < |u| && u[k] == Some(d)
    decreases |u|
  {
    if u != [] {
      FixedValuesMember(u[1..], d);
      if exists k :: 0 <= k < |u| && u[k] == Some(d) {
        var k :| 0 <= k < |u| && u[k] == Some(d);
        if k > 0 {
          assert u[1..][k - 1] == Some(d);
        }
      }
      if exists k :: 0 <= k < |u[1..]| && u[1..][k] == Some(d) {
        var k :| 0 <= k < |u[1..]| && u[1..][k] == Some(d);
        assert u[k + 1] == Some(d);
      }
    }
  }

  lemma RowMember(g: Grid, row: int, d: int)
    requires 0 <= row < BoardSize
    ensures d in FixedValues(RowUnit(g, row)) <==>
              exists j :: 0 <= j < BoardSize && g[row][j].fixedValue == Some(d)
  {
    var u := RowUnit(g, row);
    FixedValuesMember(u, d);
    if exists j :: 0 <= j < BoardSize && g[row][j].fixedValue == Some(d) {
      var j :| 0 <= j < BoardSize && g[row][j].fixedValue == Some(d);
      assert u[j] == Some(d);
    }
  }

  lemma ColumnMember(g: Grid, col: int, d: int)
    requires 0 <= col < BoardSize
    ensures d in FixedValues(ColumnUnit(g, col)) <==>
              exists i :: 0 <= i < BoardSize && g[i][col].fixedValue == Some(d)
  {
    var u := ColumnUnit(g, col);
    FixedValuesMember(u, d);
    if exists i :: 0 <= i < BoardSize && g[i][col].fixedValue == Some(d) {
      var i :| 0 <= i < BoardSize && g[i][col].fixedValue == Some(d);
      assert u[i] == Some(d);
    }
  }

  /** The index in BlockUnit(g, br, bc) of cell (i, j) of that block. */
  lemma BlockIndex(br: int, bc: int, i: int, j: int) returns (k: int)
    requires br in {0, 3, 6} && bc in {0, 3, 6}
    requires br <= i < br + BlockSize && bc <= j < bc + BlockSize
    ensures 0 <= k < BoardSize && br + k / BlockSize == i && bc + k % BlockSize == j
  {
    k := (i - br) * BlockSize + (j - bc);
  }

  /** Cell (i, j) lies in the block with top-left corner (br, bc). */
  lemma InBlock(br: int, bc: int, i: int, j: int)
    requires InBoard((i, j))
    requires br == BlockStart(i) && bc == BlockStart(j)
    ensures br in {0, 3, 6} && bc in {0, 3, 6}
    ensures br <= i < br + BlockSize && bc <= j < bc + BlockSize
  {
    BlockStartFacts(i);
    BlockStartFacts(j);
  }

  /** The k-th cell of a block unit lies in that block. */
  lemma BlockCell(br: int, bc: int, k: int)
    requires br in {0, 3, 6} && bc in {0, 3, 6} && 0 <= k < BoardSize
    ensures InBoard((br + k / BlockSize, bc + k % BlockSize))
    ensures BlockStart(br + k / BlockSize) == br && BlockStart(bc + k % BlockSize) == bc
  {
  }

  lemma BlockMemberSound(g: Grid, row: int, col: int, d: int, k: int)
    requires InBoard((row, col)) && 0 <= k < BoardSize
    requires BlockStart(row) in {0, 3, 6} && BlockStart(col) in {0, 3, 6}
    requires BlockUnit(g, BlockStart(row), BlockStart(col))[k] == Some(d)
    ensures InBoard((BlockStart(row) + k / BlockSize, BlockStart(col) + k % BlockSize))
    ensures SameBlock((BlockStart(row) + k / BlockSize, BlockStart(col) + k % BlockSize), (row, col))
    ensures g[BlockStart(row) + k / BlockSize][BlockStart(col) + k % BlockSize].fixedValue == Some(d)
  {
    BlockCell(BlockStart(row), BlockStart(col), k);
  }

  lemma BlockMemberComplete(g: Grid, row: int, col: int, d: int, i: int, j: int) returns (k: int)
    requires InBoard((row, col)) && InBoard((i, j)) && SameBlock((i, j), (row, col))
    requires g[i][j].fixedValue == Some(d)
    ensures BlockStart(row) in {0, 3, 6} && BlockStart(col) in {0, 3, 6}
    ensures 0 <= k < BoardSize && BlockUnit(g, BlockStart(row), BlockStart(col))[k] == Some(d)
  {
    InBlock(BlockStart(i), BlockStart(j), i, j);
    k := BlockIndex(BlockStart(row), BlockStart(col), i, j);
  }

  lemma BlockMember(g: Grid, row: int, col: int, d: int)
    requires InBoard((row, col))
    ensures BlockStart(row) in {0, 3, 6} && BlockStart(col) in {0, 3, 6}
    ensures d in FixedValues(BlockUnit(g, BlockStart(row), BlockStart(col))) <==>
              exists i, j :: InBoard((i, j)) && SameBlock((i, j), (row, col)) && g[i][j].fixedValue == Some(d)
  {
    InBlock(BlockStart(row), BlockStart(col), row, col);
    var u := BlockUnit(g, BlockStart(row), BlockStart(col));
    FixedValuesMember(u, d);
    if exists k :: 0 <= k < |u| && u[k] == Some(d) {
      var k :| 0 <= k < |u| && u[k] == Some(d);
      BlockMemberSound(g, row, col, d, k);
    }
    if exists i, j :: InBoard((i, j)) && SameBlock((i, j), (row, col)) && g[i][j].fixedValue == Some(d) {
      var i, j :| InBoard((i, j)) && SameBlock((i, j), (row, col)) && g[i][j].fixedValue == Some(d);
      var k := BlockMemberComplete(g, row, col, d, i, j);
    }
  }

  /** `get_row_values(row)`: the digits fixed in the row. */
  function RowValues(g: Grid, row: int): (vs: set<int>)
    requires 0 <= row < BoardSize
    ensures forall d :: d in vs <==> exists j :: 0 <= j < BoardSize && g[row][j].fixedValue == Some(d)
  {
    forall d ensures d in FixedValues(RowUnit(g, row)) <==>
                       exists j :: 0 <= j < BoardSize && g[row][j].fixedValue == Some(d) {
      RowMember(g, row, d);
    }
    FixedValues(RowUnit(g, row))
  }

  /** `get_column_values(col)`: the digits fixed in the column. */
  function ColumnValues(g: Grid, col: int): (vs: set<int>)
    requires 0 <= col < BoardSize
    ensures forall d :: d in vs <==> exists i :: 0 <= i < BoardSize && g[i][col].fixedValue == Some(d)
  {
    forall d ensures d in FixedValues(ColumnUnit(g, col)) <==>
                       exists i :: 0 <= i < BoardSize && g[i][col].fixedValue == Some(d) {
      ColumnMember(g, col, d);
    }
    FixedValues(ColumnUnit(g, col))
  }

  /** `get_block_values(row, col)`: the digits fixed in the block of (row, col). */
  function BlockValues(g: Grid, row: int, col: int): (vs: set<int>)
    requires InBoard((row, col))
    ensures forall d :: d in vs <==>
              exists i, j :: InBoard((i, j)) && SameBlock((i, j), (row, col)) && g[i][j].fixedValue == Some(d)
  {
    BlockStartFacts(row);
    BlockStartFacts(col);
    forall d ensures d in FixedValues(BlockUnit(g, BlockStart(row), BlockStart(col))) <==>
                       exists i, j :: InBoard((i, j)) && SameBlock((i, j), (row, col)) && g[i][j].fixedValue == Some(d) {
      BlockMember(g, row, col, d);
    }
    FixedValues(BlockUnit(g, BlockStart(row), BlockStart(col)))
  }

  // ---------------------------------------------------------------------
  // get_valid_candidates

  /** No cell sharing a unit with (row, col), itself included, is fixed to d. */
  ghost predicate FreeIn(g: Grid, row: int, col: int, d: int) {
    forall i, j :: InBoard((i, j)) && SameUnit((i, j), (row, col)) ==> g[i][j].fixedValue != Some(d)
  }

  /** d is fixed somewhere in the row, column or block of (row, col)
      exactly when it is not free there. */
  lemma UsedIffNotFree(g: Grid, row: int, col: int, d: int)
    requires InBoard((row, col))
    ensures d in RowValues(g, row) + ColumnValues(g, col) + BlockValues(g, row, col) <==> !FreeIn(g, row, col, d)
  {
    if !FreeIn(g, row, col, d) {
      var i, j :| InBoard((i, j)) && SameUnit((i, j), (row, col)) && g[i][j].fixedValue == Some(d);
      if i == row {
        assert d in RowValues(g, row);
      } else if j == col {
        assert d in ColumnValues(g, col);
      } else {
        assert d in BlockValues(g, row, col);
      }
    } else {
      UnusedWhenFree(g, row, col, d);
    }
  }

  lemma UnusedWhenFree(g: Grid, row: int, col: int, d: int)
    requires InBoard((row, col)) && FreeIn(g, row, col, d)
    ensures d !in RowValues(g, row) && d !in ColumnValues(g, col) && d !in BlockValues(g, row, col)
  {
    if d in RowValues(g, row) {
      var j :| 0 <= j < BoardSize && g[row][j].fixedValue == Some(d);
      assert SameUnit((row, j), (row, col));
    }
    if d in ColumnValues(g, col) {
      var i :| 0 <= i < BoardSize && g[i][col].fixedValue == Some(d);
      assert SameUnit((i, col), (row, col));
    }
  }

  /** `get_valid_candidates(row, col)`: the digits 1..9 that no cell of the
      row, column or block of (row, col) is fixed to. */
  function ValidCandidates(g: Grid, row: int, col: int): (vc: set<int>)
    requires InBoard((row, col))
    ensures forall d :: d in vc <==> 1 <= d <= BoardSize && FreeIn(g, row, col, d)
  {
    forall d ensures d in RowValues(g, row) + ColumnValues(g, col) + BlockValues(g, row, col) <==> !FreeIn(g, row, col, d) {
      UsedIffNotFree(g, row, col, d);
    }
    Digits() - (RowValues(g, row) + ColumnValues(g, col) + BlockValues(g, row, col))
  }

  // ---------------------------------------------------------------------
  // validate_board_consistency

  /** Two cells of a unit are fixed to the same value. */
  predicate HasDuplicate(u: seq<Option<int>>) {
    exists a, b :: 0 <= a < b < |u| && u[a].Some? && u[a] == u[b]
  }

  /** The test `validate_board_consistency` applies to a unit: fewer distinct fixed values than fixed cells. */
  predicate UnitClashes(u: seq<Option<int>>) {
    |FixedValues(u)| < FixedCount(u)
  }

  lemma DuplicateInTail(u: seq<Option<int>>)
    requires u != [] && HasDuplicate(u[1..])
    ensures HasDuplicate(u)
  {
    var t := u[1..];
    var a, b :| 0 <= a < b < |t| && t[a].Some? && t[a] == t[b];
    assert u[a + 1] == t[a] && u[b + 1] == t[b];
  }

  /** A duplicate not already in the tail involves the head. */
  lemma DuplicateWithHead(u: seq<Option<int>>)
    requires u != [] && HasDuplicate(u) && !HasDuplicate(u[1..])
    ensures u[0].Some? && u[0].value in FixedValues(u[1..])
  {
    var t := u[1..];
    var a, b :| 0 <= a < b < |u| && u[a].Some? && u[a] == u[b];
    if a > 0 {
      assert false;
    }
    assert t[b - 1] == u[0];
    FixedValuesMember(t, u[0].value);
  }

  lemma HeadRepeated(u: seq<Option<int>>)
    requires u != [] && u[0].Some? && u[0].value in FixedValues(u[1..])
    ensures HasDuplicate(u)
  {
    var t := u[1..];
    FixedValuesMember(t, u[0].value);
    var k :| 0 <= k < |t| && t[k] == u[0];
    assert u[k + 1] == u[0];
  }

  /** The counting test detects exactly the duplicated fixed values. */
  lemma {:induction false} UnitClashesIffDuplicate(u: seq<Option<int>>)
    ensures |FixedValues(u)| <= FixedCount(u)
    ensures UnitClashes(u) <==> HasDuplicate(u)
    decreases |u|
  {
    if u != [] {
      var t := u[1..];
      UnitClashesIffDuplicate(t);
      if HasDuplicate(t) {
        DuplicateInTail(u);
      }
      if HasDuplicate(u) && !HasDuplicate(t) {
        DuplicateWithHead(u);
      }
      if u[0].Some? && u[0].value in FixedValues(t) {
        HeadRepeated(u);
        assert FixedValues(u) == FixedValues(t);
      } else if u[0].Some? {
        assert FixedValues(u) == {u[0].value} + FixedValues(t);
      } else {
        assert FixedValues(u) == FixedValues(t);
      }
    }
  }

  /** Row loop of `validate_board_consistency`, from row i on: it raises for
      the first row that holds a repeated value, and passes when none does. */
  function CheckRows(g: Grid, i: nat): (r: Outcome)
    ensures r.Fail? ==> && r.error.RowDuplicate? && i <= r.error.row < BoardSize
                        && UnitClashes(RowUnit(g, r.error.row))
                        && forall k :: i <= k < r.error.row ==> !UnitClashes(RowUnit(g, k))
    ensures r.Pass? ==> forall k :: i <= k < BoardSize ==> !UnitClashes(RowUnit(g, k))
    decreases BoardSize - i
  {
    if i >= BoardSize then Pass
    else if UnitClashes(RowUnit(g, i)) then Fail(RowDuplicate(i))
    else CheckRows(g, i + 1)
  }

  /** Column loop, from column j on: it raises for the first column that
      holds a repeated value, and passes when none does. */
  function CheckColumns(g: Grid, j: nat): (r: Outcome)
    ensures r.Fail? ==> && r.error.ColumnDuplicate? && j <= r.error.col < BoardSize
                        && UnitClashes(ColumnUnit(g, r.error.col))
                        && forall k :: j <= k < r.error.col ==> !UnitClashes(ColumnUnit(g, k))
    ensures r.Pass? ==> forall k :: j <= k < BoardSize ==> !UnitClashes(ColumnUnit(g, k))
    decreases BoardSize - j
  {
    if j >= BoardSize then Pass
    else if UnitClashes(ColumnUnit(g, j)) then Fail(ColumnDuplicate(j))
    else CheckColumns(g, j + 1)
  }

  /** Block loops, from the block with corner (br, bc) on, row by row: they
      raise for the first block that holds a repeated value, and pass when
      none does. */
  function CheckBlocks(g: Grid, br: int, bc: int): (r: Outcome)
    requires br in {0, 3, 6, 9} && bc in {0, 3, 6, 9}
    ensures r.Fail? ==> && r.error.BlockDuplicate? && IsCorner(r.error.blockRow) && IsCorner(r.error.blockCol)
                        && BlockFrom(r.error.blockRow, r.error.blockCol, br, bc)
                        && UnitClashes(BlockUnit(g, r.error.blockRow, r.error.blockCol))
                        && forall a, b :: IsCorner(a) && IsCorner(b) && BlockFrom(a, b, br, bc)
                                          && !BlockFrom(a, b, r.error.blockRow, r.error.blockCol)
                                          ==> !UnitClashes(BlockUnit(g, a, b))
    ensures r.Pass? ==> forall a, b :: IsCorner(a) && IsCorner(b) && BlockFrom(a, b, br, bc)
                                      ==> !UnitClashes(BlockUnit(g, a, b))
    decreases BoardSize - br, BoardSize - bc
  {
    if br >= BoardSize then Pass
    else if bc >= BoardSize then CheckBlocks(g, br + BlockSize, 0)
    else if UnitClashes(BlockUnit(g, br, bc)) then Fail(BlockDuplicate(br, bc))
    else CheckBlocks(g, br, bc + BlockSize)
  }

  predicate IsEmptyCell(c: CellState) {
    c.fixedValue.None? && c.possibilities == map[]
  }

  /** Final loop, from (i, j) on in row-major order: it raises for the first
      unfixed cell without possibilities, and passes when there is none. */
  function CheckCells(g: Grid, i: nat, j: nat): (r: Outcome)
    ensures r.Fail? ==> && r.error.NoCandidates? && InBoard((r.error.row, r.error.col))
                        && CellFrom(r.error.row, r.error.col, i, j)
                        && IsEmptyCell(g[r.error.row][r.error.col])
                        && forall a, b :: InBoard((a, b)) && CellFrom(a, b, i, j) && !CellFrom(a, b, r.error.row, r.error.col)
                                          ==> !IsEmptyCell(g[a][b])
    ensures r.Pass? ==> forall a, b :: InBoard((a, b)) && CellFrom(a, b, i, j) ==> !IsEmptyCell(g[a][b])
    decreases BoardSize - i, BoardSize - j
  {
    if i >= BoardSize then Pass
    else if j >= BoardSize then CheckCells(g, i + 1, 0)
    else if IsEmptyCell(g[i][j]) then Fail(NoCandidates(i, j))
    else CheckCells(g, i, j + 1)
  }

  /** The cell (a, b) comes at or after (i, j) in row-major order. */
  ghost predicate CellFrom(a: int, b: int, i: int, j: int) {
    a > i || (a == i && b >= j)
  }

  ghost predicate RowsDistinct(g: Grid) {
    forall k :: 0 <= k < BoardSize ==> !UnitClashes(RowUnit(g, k))
  }

  ghost predicate ColumnsDistinct(g: Grid) {
    forall k :: 0 <= k < BoardSize ==> !UnitClashes(ColumnUnit(g, k))
  }

  ghost predicate BlocksDistinct(g: Grid) {
    forall a, b :: IsCorner(a) && IsCorner(b) ==> !UnitClashes(BlockUnit(g, a, b))
  }

  /** The error `validate_board_consistency` raised names a unit that repeats
      a value, or a cell without possibilities, and every kind of unit
      checked before it is free of repeats. */
  ghost predicate Justified(g: Grid, e: Error) {
    match e
    case RowDuplicate(k) => 0 <= k < BoardSize && UnitClashes(RowUnit(g, k))
    case ColumnDuplicate(k) => 0 <= k < BoardSize && UnitClashes(ColumnUnit(g, k)) && RowsDistinct(g)
    case BlockDuplicate(a, b) =>
      IsCorner(a) && IsCorner(b) && UnitClashes(BlockUnit(g, a, b)) && RowsDistinct(g) && ColumnsDistinct(g)
    case NoCandidates(i, j) =>
      InBoard((i, j)) && IsEmptyCell(g[i][j]) && RowsDistinct(g) && ColumnsDistinct(g) && BlocksDistinct(g)
    case _ => false
  }

  /** `validate_board_consistency`: rows, then columns, then blocks, then
      cells; the first violation found is the one raised. */
  function ValidateBoardConsistency(g: Grid): (r: Outcome)
    ensures r.Fail? ==> Justified(g, r.error)
    ensures r.Pass? ==> RowsDistinct(g) && ColumnsDistinct(g) && BlocksDistinct(g) && !HasEmptyCell(g)
  {
    var rows := CheckRows(g, 0);
    if rows.Fail? then rows
    else
      var columns := CheckColumns(g, 0);
      if columns.Fail? then
        ColumnFailJustified(g);
        columns
      else
        var blocks := CheckBlocks(g, 0, 0);
        if blocks.Fail? then
          BlockFailJustified(g);
          blocks
        else
          BlocksPassed(g);
          CellsChecked(g);
          CheckCells(g, 0, 0)
  }

  lemma ColumnFailJustified(g: Grid)
    requires CheckRows(g, 0).Pass? && CheckColumns(g, 0).Fail?
    ensures Justified(g, CheckColumns(g, 0).error)
  {
  }

  lemma BlockFailJustified(g: Grid)
    requires CheckRows(g, 0).Pass? && CheckColumns(g, 0).Pass? && CheckBlocks(g, 0, 0).Fail?
    ensures Justified(g, CheckBlocks(g, 0, 0).error)
  {
  }

  lemma BlocksPassed(g: Grid)
    requires CheckBlocks(g, 0, 0).Pass?
    ensures BlocksDistinct(g)
  {
    assert forall a, b :: IsCorner(a) && IsCorner(b) ==> BlockFrom(a, b, 0, 0);
  }

  lemma CellsChecked(g: Grid)
    requires CheckRows(g, 0).Pass? && CheckColumns(g, 0).Pass? && BlocksDistinct(g)
    ensures CheckCells(g, 0, 0).Fail? ==> Justified(g, CheckCells(g, 0, 0).error)
    ensures CheckCells(g, 0, 0).Pass? ==> !HasEmptyCell(g)
  {
    assert forall a, b :: InBoard((a, b)) ==> CellFrom(a, b, 0, 0);
  }

  /** Two distinct cells fixed to the same value. */
  ghost predicate Clash(g: Grid, p: Pos, q: Pos) {
    InBoard(p) && InBoard(q) && p != q && At(g, p).fixedValue.Some? && At(g, p).fixedValue == At(g, q).fixedValue
  }

  /** Two distinct cells of one row, column or block are fixed to the same digit. */
  ghost predicate HasConflict(g: Grid) {
    exists p, q :: Clash(g, p, q) && SameUnit(p, q)
  }

  /** Some unfixed cell has no possibilities left. */
  ghost predicate HasEmptyCell(g: Grid) {
    exists i, j :: InBoard((i, j)) && IsEmptyCell(g[i][j])
  }

  lemma RowDuplicateIffClash(g: Grid, r: int)
    requires 0 <= r < BoardSize
    ensures HasDuplicate(RowUnit(g, r)) <==> exists p, q :: Clash(g, p, q) && p.0 == r && q.0 == r
  {
    var u := RowUnit(g, r);
    if HasDuplicate(u) {
      var a, b :| 0 <= a < b < |u| && u[a].Some? && u[a] == u[b];
      assert Clash(g, (r, a), (r, b));
    }
    if exists p, q :: Clash(g, p, q) && p.0 == r && q.0 == r {
      var p, q :| Clash(g, p, q) && p.0 == r && q.0 == r;
      if p.1 < q.1 {
        assert u[p.1].Some? && u[p.1] == u[q.1];
      } else {
        assert u[q.1].Some? && u[q.1] == u[p.1];
      }
    }
  }

  lemma ColumnDuplicateIffClash(g: Grid, c: int)
    requires 0 <= c < BoardSize
    ensures HasDuplicate(ColumnUnit(g, c)) <==> exists p, q :: Clash(g, p, q) && p.1 == c && q.1 == c
  {
    var u := ColumnUnit(g, c);
    if HasDuplicate(u) {
      var a, b :| 0 <= a < b < |u| && u[a].Some? && u[a] == u[b];
      assert Clash(g, (a, c), (b, c));
    }
    if exists p, q :: Clash(g, p, q) && p.1 == c && q.1 == c {
      var p, q :| Clash(g, p, q) && p.1 == c && q.1 == c;
      if p.0 < q.0 {
        assert u[p.0].Some? && u[p.0] == u[q.0];
      } else {
        assert u[q.0].Some? && u[q.0] == u[p.0];
      }
    }
  }

  /** p lies in the block with corner (br, bc). */
  ghost predicate InBlockOf(p: Pos, br: int, bc: int) {
    BlockStart(p.0) == br && BlockStart(p.1) == bc
  }

  lemma BlockDuplicateToClash(g: Grid, br: int, bc: int, a: int, b: int)
    requires br in {0, 3, 6} && bc in {0, 3, 6}
    requires 0 <= a < b < BoardSize
    requires BlockUnit(g, br, bc)[a].Some? && BlockUnit(g, br, bc)[a] == BlockUnit(g, br, bc)[b]
    ensures exists p, q :: Clash(g, p, q) && InBlockOf(p, br, bc) && InBlockOf(q, br, bc)
  {
    var p := BlockUnitCell(g, br, bc, a);
    var q := BlockUnitCell(g, br, bc, b);
    assert Clash(g, p, q);
  }

  /** The cell at index k of the unit of the block with corner (br, bc). */
  lemma BlockUnitCell(g: Grid, br: int, bc: int, k: int) returns (p: Pos)
    requires br in {0, 3, 6} && bc in {0, 3, 6} && 0 <= k < BoardSize
    ensures InBoard(p) && InBlockOf(p, br, bc)
    ensures k == (p.0 - br) * BlockSize + (p.1 - bc)
    ensures BlockUnit(g, br, bc)[k] == At(g, p).fixedValue
  {
    BlockCell(br, bc, k);
    p := (br + k / BlockSize, bc + k % BlockSize);
  }

  lemma ClashToBlockDuplicate(g: Grid, br: int, bc: int, p: Pos, q: Pos)
    requires br in {0, 3, 6} && bc in {0, 3, 6}
    requires Clash(g, p, q) && InBlockOf(p, br, bc) && InBlockOf(q, br, bc)
    ensures HasDuplicate(BlockUnit(g, br, bc))
  {
    InBlock(br, bc, p.0, p.1);
    InBlock(br, bc, q.0, q.1);
    var kp := BlockUnitIndex(g, br, bc, p.0, p.1);
    var kq := BlockUnitIndex(g, br, bc, q.0, q.1);
    ClashAt(g, br, bc, p, q, kp, kq);
  }

  /** Cell (i, j) of the block with corner (br, bc) sits at index
      3 * (i - br) + (j - bc) of its unit. */
  lemma BlockUnitIndex(g: Grid, br: int, bc: int, i: int, j: int) returns (k: int)
    requires br in {0, 3, 6} && bc in {0, 3, 6}
    requires br <= i < br + BlockSize && bc <= j < bc + BlockSize
    ensures 0 <= k < BoardSize && k == (i - br) * BlockSize + (j - bc)
    ensures BlockUnit(g, br, bc)[k] == g[i][j].fixedValue
  {
    k := BlockIndex(br, bc, i, j);
  }

  lemma ClashAt(g: Grid, br: int, bc: int, p: Pos, q: Pos, kp: int, kq: int)
    requires br in {0, 3, 6} && bc in {0, 3, 6}
    requires Clash(g, p, q)
    requires br <= p.0 < br + BlockSize && bc <= p.1 < bc + BlockSize
    requires br <= q.0 < br + BlockSize && bc <= q.1 < bc + BlockSize
    requires 0 <= kp < BoardSize && kp == (p.0 - br) * BlockSize + (p.1 - bc)
    requires 0 <= kq < BoardSize && kq == (q.0 - br) * BlockSize + (q.1 - bc)
    requires BlockUnit(g, br, bc)[kp] == g[p.0][p.1].fixedValue
    requires BlockUnit(g, br, bc)[kq] == g[q.0][q.1].fixedValue
    ensures HasDuplicate(BlockUnit(g, br, bc))
  {
    var u := BlockUnit(g, br, bc);
    assert kp != kq;
    if kp < kq {
      assert u[kp].Some? && u[kp] == u[kq];
    } else {
      assert u[kq].Some? && u[kq] == u[kp];
    }
  }

  lemma BlockDuplicateIffClash(g: Grid, br: int, bc: int)
    requires br in {0, 3, 6} && bc in {0, 3, 6}
    ensures HasDuplicate(BlockUnit(g, br, bc)) <==>
              exists p, q :: Clash(g, p, q) && InBlockOf(p, br, bc) && InBlockOf(q, br, bc)
  {
    var u := BlockUnit(g, br, bc);
    if HasDuplicate(u) {
      var a, b :| 0 <= a < b < |u| && u[a].Some? && u[a] == u[b];
      BlockDuplicateToClash(g, br, bc, a, b);
    }
    if exists p, q :: Clash(g, p, q) && InBlockOf(p, br, bc) && InBlockOf(q, br, bc) {
      var p, q :| Clash(g, p, q) && InBlockOf(p, br, bc) && InBlockOf(q, br, bc);
      ClashToBlockDuplicate(g, br, bc, p, q);
    }
  }

  lemma {:induction false} CheckRowsFails(g: Grid, i: nat)
    ensures CheckRows(g, i).Fail? <==> exists p, q :: Clash(g, p, q) && p.0 == q.0 && p.0 >= i
    decreases BoardSize - i
  {
    if i < BoardSize {
      CheckRowsFails(g, i + 1);
      UnitClashesIffDuplicate(RowUnit(g, i));
      RowDuplicateIffClash(g, i);
      if exists p, q :: Clash(g, p, q) && p.0 == q.0 && p.0 >= i {
        var p, q :| Clash(g, p, q) && p.0 == q.0 && p.0 >= i;
        if p.0 == i {
          assert Clash(g, p, q) && p.0 == i && q.0 == i;
        } else {
          assert Clash(g, p, q) && p.0 == q.0 && p.0 >= i + 1;
        }
      }
    }
  }

  lemma {:induction false} CheckColumnsFails(g: Grid, j: nat)
    ensures CheckColumns(g, j).Fail? <==> exists p, q :: Clash(g, p, q) && p.1 == q.1 && p.1 >= j
    decreases BoardSize - j
  {
    if j < BoardSize {
      CheckColumnsFails(g, j + 1);
      UnitClashesIffDuplicate(ColumnUnit(g, j));
      ColumnDuplicateIffClash(g, j);
      ColumnClashSplit(g, j);
    }
  }

  /** A column clash from column j on is one in column j or one from j + 1 on. */
  lemma ColumnClashSplit(g: Grid, j: int)
    ensures (exists p, q :: Clash(g, p, q) && p.1 == q.1 && p.1 >= j) <==>
              (exists p, q :: Clash(g, p, q) && p.1 == j && q.1 == j)
              || (exists p, q :: Clash(g, p, q) && p.1 == q.1 && p.1 >= j + 1)
  {
    if exists p, q :: Clash(g, p, q) && p.1 == q.1 && p.1 >= j {
      var p, q :| Clash(g, p, q) && p.1 == q.1 && p.1 >= j;
      if p.1 == j {
        assert Clash(g, p, q) && p.1 == j && q.1 == j;
      } else {
        assert Clash(g, p, q) && p.1 == q.1 && p.1 >= j + 1;
      }
    }
  }

  /** The block with corner (a, b) comes at or after the one with corner (br, bc). */
  ghost predicate BlockFrom(a: int, b: int, br: int, bc: int) {
    a > br || (a == br && b >= bc)
  }

  ghost predicate IsCorner(a: int) {
    a in {0, 3, 6}
  }

  lemma {:induction false} CheckBlocksFails(g: Grid, br: int, bc: int)
    requires br in {0, 3, 6, 9} && bc in {0, 3, 6, 9}
    ensures CheckBlocks(g, br, bc).Fail? <==>
              exists a, b :: IsCorner(a) && IsCorner(b) && BlockFrom(a, b, br, bc) && HasDuplicate(BlockUnit(g, a, b))
    decreases BoardSize - br, BoardSize - bc
  {
    if br < BoardSize && bc >= BoardSize {
      CheckBlocksFails(g, br + BlockSize, 0);
      if exists a, b :: IsCorner(a) && IsCorner(b) && BlockFrom(a, b, br, bc) && HasDuplicate(BlockUnit(g, a, b)) {
        var a, b :| IsCorner(a) && IsCorner(b) && BlockFrom(a, b, br, bc) && HasDuplicate(BlockUnit(g, a, b));
        assert BlockFrom(a, b, br + BlockSize, 0);
      }
    } else if br < BoardSize {
      CheckBlocksFails(g, br, bc + BlockSize);
      UnitClashesIffDuplicate(BlockUnit(g, br, bc));
      if exists a, b :: IsCorner(a) && IsCorner(b) && BlockFrom(a, b, br, bc) && HasDuplicate(BlockUnit(g, a, b)) {
        var a, b :| IsCorner(a) && IsCorner(b) && BlockFrom(a, b, br, bc) && HasDuplicate(BlockUnit(g, a, b));
        if (a, b) != (br, bc) {
          assert BlockFrom(a, b, br, bc + BlockSize);
        }
      }
    }
  }

  /** Some block, named by its corner, holds a duplicate exactly when two
      distinct cells of one block are fixed to the same digit. */
  lemma BlockClashIff(g: Grid)
    ensures (exists a, b :: IsCorner(a) && IsCorner(b) && BlockFrom(a, b, 0, 0) && HasDuplicate(BlockUnit(g, a, b)))
            <==> exists p, q :: Clash(g, p, q) && SameBlock(p, q)
  {
    if exists a, b :: IsCorner(a) && IsCorner(b) && BlockFrom(a, b, 0, 0) && HasDuplicate(BlockUnit(g, a, b)) {
      var a, b :| IsCorner(a) && IsCorner(b) && BlockFrom(a, b, 0, 0) && HasDuplicate(BlockUnit(g, a, b));
      DuplicateBlockClashes(g, a, b);
    }
    if exists p, q :: Clash(g, p, q) && SameBlock(p, q) {
      var p, q :| Clash(g, p, q) && SameBlock(p, q);
      ClashingBlockDuplicates(g, p, q);
    }
  }

  lemma DuplicateBlockClashes(g: Grid, a: int, b: int)
    requires IsCorner(a) && IsCorner(b) && HasDuplicate(BlockUnit(g, a, b))
    ensures exists p, q :: Clash(g, p, q) && SameBlock(p, q)
  {
    BlockDuplicateIffClash(g, a, b);
    var p, q :| Clash(g, p, q) && InBlockOf(p, a, b) && InBlockOf(q, a, b);
    assert SameBlock(p, q);
  }

  lemma ClashingBlockDuplicates(g: Grid, p: Pos, q: Pos)
    requires Clash(g, p, q) && SameBlock(p, q)
    ensures exists a, b :: IsCorner(a) && IsCorner(b) && BlockFrom(a, b, 0, 0) && HasDuplicate(BlockUnit(g, a, b))
  {
    var a, b := BlockStart(p.0), BlockStart(p.1);
    BlockStartFacts(p.0);
    BlockStartFacts(p.1);
    assert InBlockOf(p, a, b) && InBlockOf(q, a, b);
    BlockDuplicateIffClash(g, a, b);
    assert IsCorner(a) && IsCorner(b) && BlockFrom(a, b, 0, 0);
  }

  lemma {:induction false} CheckCellsFails(g: Grid, i: nat, j: nat)
    ensures CheckCells(g, i, j).Fail? <==>
              exists a, b :: InBoard((a, b)) && (a > i || (a == i && b >= j)) && IsEmptyCell(g[a][b])
    decreases BoardSize - i, BoardSize - j
  {
    if i < BoardSize && j >= BoardSize {
      CheckCellsFails(g, i + 1, 0);
    } else if i < BoardSize {
      CheckCellsFails(g, i, j + 1);
      if exists a, b :: InBoard((a, b)) && (a > i || (a == i && b >= j)) && IsEmptyCell(g[a][b]) {
        var a, b :| InBoard((a, b)) && (a > i || (a == i && b >= j)) && IsEmptyCell(g[a][b]);
        if (a, b) != (i, j) {
          assert a > i || (a == i && b >= j + 1);
        }
      }
    }
  }

  /** `validate_board_consistency` raises exactly when two cells of one row,
      column or block are fixed to the same digit, or an unfixed cell has no
      possibilities. */
  lemma ValidateRaisesIff(g: Grid)
    ensures ValidateBoardConsistency(g).Fail? <==> HasConflict(g) || HasEmptyCell(g)
  {
    ValidateFailsIffUnits(g);
    ConflictIffUnits(g);
  }

  ghost predicate RowClash(g: Grid) {
    exists p, q :: Clash(g, p, q) && p.0 == q.0
  }

  ghost predicate ColumnClash(g: Grid) {
    exists p, q :: Clash(g, p, q) && p.1 == q.1
  }

  ghost predicate BlockClash(g: Grid) {
    exists p, q :: Clash(g, p, q) && SameBlock(p, q)
  }

  /** The four loops in turn: validation raises exactly when some row, some
      column or some block clashes, or some cell is empty. */
  lemma ValidateFailsIffUnits(g: Grid)
    ensures ValidateBoardConsistency(g).Fail? <==> RowClash(g) || ColumnClash(g) || BlockClash(g) || HasEmptyCell(g)
  {
    CheckRowsFails(g, 0);
    CheckColumnsFails(g, 0);
    CheckBlocksFails(g, 0, 0);
    BlockClashIff(g);
    CheckCellsFails(g, 0, 0);
  }

  /** A clash within one unit is a clash within a row, a column or a block. */
  lemma ConflictIffUnits(g: Grid)
    ensures HasConflict(g) <==> RowClash(g) || ColumnClash(g) || BlockClash(g)
  {
    if HasConflict(g) {
      var p, q :| Clash(g, p, q) && SameUnit(p, q);
      if p.0 == q.0 {
        assert RowClash(g);
      } else if p.1 == q.1 {
        assert ColumnClash(g);
      } else {
        assert BlockClash(g);
      }
    }
    if RowClash(g) {
      var p, q :| Clash(g, p, q) && p.0 == q.0;
      assert SameUnit(p, q);
    }
    if ColumnClash(g) {
      var p, q :| Clash(g, p, q) && p.1 == q.1;
      assert SameUnit(p, q);
    }
    if BlockClash(g) {
      var p, q :| Clash(g, p, q) && SameBlock(p, q);
      assert SameUnit(p, q);
    }
  }

  // ---------------------------------------------------------------------
  // serialize_board

  /** One cell as sent to the client: `{"value": v}` or
      `{"possibilities": {digit: percentage}}`; percentages are exact. */
  datatype SerialCell = FixedCell(value: int) | Superposed(percentages: map<int, real>)

  /** One cell of `serialize_board`: the value of a fixed cell, otherwise
      each possibility with its weight as a percentage. With uniform weights
      over n possibilities every percentage is 100/n: positive, at most 100,
      and exactly 100 for a single possibility. */
  function SerializeCell(c: CellState): (s: SerialCell)
    ensures c.fixedValue.Some? ==> s == FixedCell(c.fixedValue.value)
    ensures c.fixedValue.None? ==> s.Superposed? && s.percentages.Keys == c.possibilities.Keys
    ensures c.fixedValue.None? && IsUniform(c.possibilities) ==>
              forall k :: k in c.possibilities ==>
                && s.percentages[k] * (|c.possibilities| as real) == 100.0
                && 0.0 < s.percentages[k] <= 100.0
                && (|c.possibilities| == 1 ==> s.percentages[k] == 100.0)
  {
    if c.fixedValue.Some? then FixedCell(c.fixedValue.value)
    else
      UniformScaled(c.possibilities);
      Superposed(map k | k in c.possibilities :: c.possibilities[k] * 100.0)
  }

  /** Uniform weights over n keys, scaled by 100, are 100/n each. */
  lemma UniformScaled(m: map<int, real>)
    ensures IsUniform(m) ==> forall k :: k in m ==>
              && (m[k] * 100.0) * (|m| as real) == 100.0
              && 0.0 < m[k] * 100.0 <= 100.0
  {
    if IsUniform(m) {
      forall k | k in m ensures (m[k] * 100.0) * (|m| as real) == 100.0 && 0.0 < m[k] * 100.0 <= 100.0 {
        var n := |m| as real;
        assert m[k] * n == 1.0;
        assert n >= 1.0;
        assert m[k] > 0.0;
      }
    }
  }

  /** A repeated digit counts twice in the weight: after
      `update_possibilities([3, 3])` the only key, 3, weighs 1/2 and is
      shown at 50 %. */
  lemma RepeatedCandidateShownHalf()
    ensures WithCandidates([3, 3]).possibilities == map[3 := 0.5]
    ensures SerializeCell(WithCandidates([3, 3])) == Superposed(map[3 := 50.0])
  {
    var c := WithCandidates([3, 3]);
    assert c.possibilities.Keys == {3};
    assert c.possibilities[3] * 2.0 == 1.0;
    assert c.possibilities == map[3 := 0.5];
  }

  /** `serialize_board`: nine rows of nine serialized cells; a fixed cell
      shows its value, any other cell the same digits as its possibilities. */
  function SerializeBoard(g: Grid): (s: seq<seq<SerialCell>>)
    ensures |s| == BoardSize && forall i :: 0 <= i < BoardSize ==> |s[i]| == BoardSize
    ensures forall i, j :: InBoard((i, j)) && g[i][j].fixedValue.Some? ==>
              s[i][j] == FixedCell(g[i][j].fixedValue.value)
    ensures forall i, j :: InBoard((i, j)) && g[i][j].fixedValue.None? ==>
              s[i][j].Superposed? && s[i][j].percentages.Keys == g[i][j].possibilities.Keys
  {
    seq(BoardSize, i requires 0 <= i < BoardSize =>
      seq(BoardSize, j requires 0 <= j < BoardSize => SerializeCell(g[i][j])))
  }
}

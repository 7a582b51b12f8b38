/** `QuantumSudokuBoard`: a 9x9 grid of distinct `SudokuCell` objects whose
    state-changing methods are proved against the grid functions of BoardSpec. */
module Board {
  import opened Common
  import opened Cell
  import opened Grid
  import opened BoardSpec

  /** Fresh, distinct cells for one row of `initial`; `index` records the
      column of each. */
  method NewRow(i: int, values: seq<int>) returns (row: seq<SudokuCell>, ghost index: map<SudokuCell, Pos>)
    requires |values| == BoardSize
    ensures |row| == BoardSize
    ensures forall j :: 0 <= j < BoardSize ==> row[j] in index && index[row[j]] == (i, j)
    ensures forall c :: c in index ==> fresh(c)
    ensures forall j :: 0 <= j < BoardSize ==> row[j].Value() == InitialCell(values[j])
  {
    row := [];
    index := map[];
    for j := 0 to BoardSize
      invariant |row| == j
      invariant forall b :: 0 <= b < j ==> row[b] in index && index[row[b]] == (i, b)
      invariant forall c :: c in index ==> fresh(c)
      invariant forall b :: 0 <= b < j ==> row[b].Value() == InitialCell(values[b])
    {
      var cell := new SudokuCell(if values[j] != 0 then Some(values[j]) else None);
      row := row + [cell];
      index := index[cell := (i, j)];
    }
  }

  /** The cells `initialize_from_array` builds, row by row. */
  method NewCells(initial: seq<seq<int>>) returns (cells: seq<seq<SudokuCell>>, ghost index: map<SudokuCell, Pos>)
    requires IsSquare(initial)
    ensures |cells| == BoardSize && forall i :: 0 <= i < BoardSize ==> |cells[i]| == BoardSize
    ensures forall i, j :: InBoard((i, j)) ==> cells[i][j] in index && index[cells[i][j]] == (i, j)
    ensures forall c :: c in index ==> fresh(c)
    ensures forall i, j :: InBoard((i, j)) ==> cells[i][j].Value() == FromArray(initial)[i][j]
  {
    cells := [];
    index := map[];
    for i := 0 to BoardSize
      invariant |cells| == i && forall a :: 0 <= a < i ==> |cells[a]| == BoardSize
      invariant forall a, b :: 0 <= a < i && 0 <= b < BoardSize ==> cells[a][b] in index && index[cells[a][b]] == (a, b)
      invariant forall c :: c in index ==> fresh(c)
      invariant forall a, b :: 0 <= a < i && 0 <= b < BoardSize ==> cells[a][b].Value() == InitialCell(initial[a][b])
    {
      var row, rowIndex := NewRow(i, initial[i]);
      cells := cells + [row];
      index := index + rowIndex;
    }
  }

  class QuantumSudokuBoard {
    var board: seq<seq<SudokuCell>>
    ghost var Repr: set<object>
    /** Where each cell of the grid sits; it makes the 81 cells distinct. */
    ghost var Index: map<SudokuCell, Pos>

    ghost predicate Valid()
      reads this
    {
      && |board| == BoardSize
      && (forall i :: 0 <= i < BoardSize ==> |board[i]| == BoardSize)
      && Repr == Index.Keys
      && this !in Repr
      && (forall i, j :: InBoard((i, j)) ==> board[i][j] in Index && Index[board[i][j]] == (i, j))
    }

    /** The value of the grid: the state of every cell. */
    function State(): (g: Grid)
      requires Valid()
      reads this, Repr
      ensures forall i, j :: InBoard((i, j)) ==> g[i][j] == board[i][j].Value()
    {
      seq(BoardSize, i requires 0 <= i < BoardSize && Valid() reads this, Repr =>
        seq(BoardSize, j requires 0 <= j < BoardSize && Valid() reads this, Repr => board[i][j].Value()))
    }

    /** Between the labelled state and now only the cell at p may have
        changed, so the grid is the old one with that cell replaced. */
    twostate lemma OneCellChanged(p: Pos)
      requires old(Valid()) && InBoard(p) && unchanged(this)
      requires forall c :: c in old(Repr) && c != old(board[p.0][p.1]) ==> unchanged(c)
      ensures Valid()
      ensures State() == Put(old(State()), p, board[p.0][p.1].Value())
    {
      forall a, b | InBoard((a, b)) && (a, b) != p
        ensures State()[a][b] == old(State())[a][b]
      {
        assert board[a][b] != board[p.0][p.1];
      }
      SquareExtensionality(State(), Put(old(State()), p, board[p.0][p.1].Value()));
    }

    /** `QuantumSudokuBoard()`: 81 unfixed cells, then `initialize_board`. */
    constructor ()
      ensures Valid() && fresh(Repr)
      ensures State() == Initialized(FromArray(ZeroArray()))
    {
      var cells, index := NewCells(ZeroArray());
      board := cells;
      Index := index;
      Repr := index.Keys;
      new;
      SquareExtensionality(State(), FromArray(ZeroArray()));
      InitializeBoard();
    }

    /** `initialize_from_array`: new cells for `initial`, then `initialize_board`. */
    method InitializeFromArray(initial: seq<seq<int>>)
      requires IsSquare(initial)
      modifies this
      ensures Valid() && fresh(Repr)
      ensures State() == Initialized(FromArray(initial))
    {
      var cells, index := NewCells(initial);
      board := cells;
      Index := index;
      Repr := index.Keys;
      SquareExtensionality(State(), FromArray(initial));
      InitializeBoard();
    }

    /** `initialize_board`: every unfixed cell with candidates gets exactly
        them, with equal weights; the row-major order does not matter because
        candidates depend only on fixed values, which the loop never changes. */
    method InitializeBoard()
      requires Valid()
      modifies Repr
      ensures Valid()
      ensures State() == Initialized(old(State()))
    {
      ghost var g0 := State();
      PartlyInitializedEnds(g0);
      for i := 0 to BoardSize
        invariant Valid()
        invariant State() == PartlyInitialized(g0, i, 0)
      {
        for j := 0 to BoardSize
          invariant Valid()
          invariant State() == PartlyInitialized(g0, i, j)
        {
          PartlyInitializedStep(g0, i, j);
          InitializeCell(i, j);
        }
        PartlyInitializedRow(g0, i);
      }
    }

    /** One step of the loop of `initialize_board`: an unfixed cell whose
        row, column and block leave some digit free gets exactly those
        digits as possibilities, with equal weights. */
    method InitializeCell(i: int, j: int)
      requires Valid() && InBoard((i, j))
      modifies board[i][j]
      ensures Valid()
      ensures State() == Put(old(State()), (i, j), InitializedCell(old(State()), i, j))
    {
      label before:
      ghost var g := State();
      var cell := board[i][j];
      assert cell as object != this;
      if cell.fixedValue.None? {
        var validCandidates := ValidCandidates(State(), i, j);
        if validCandidates != {} {
          cell.possibilities := Uniform(validCandidates);
        }
        assert cell.Value() == InitializedCell(g, i, j);
      }
      OneCellChanged@before((i, j));
    }

    /** `user_assign`: the checks first (nothing changes if one fails), then
        the cell update, then `propagate_constraints`, whose validation runs
        after the neighbours have been changed. */
    method UserAssign(row: int, col: int, candidates: seq<int>) returns (res: Outcome)
      requires Valid() && InBoard((row, col))
      modifies Repr
      ensures Valid()
      ensures AssignCheck(old(State()), row, col, candidates).Fail? ==>
                res == AssignCheck(old(State()), row, col, candidates) && State() == old(State())
      ensures AssignCheck(old(State()), row, col, candidates).Pass? ==>
                State() == Assigned(old(State()), row, col, candidates)
                && res == ValidateBoardConsistency(State())
    {
      ghost var g0 := State();
      var cell := board[row][col];
      assert cell as object != this;
      if cell.fixedValue.Some? {
        return Fail(AlreadyFixed(row, col, cell.fixedValue.value));
      }
      if !((set x | x in candidates) <= cell.possibilities.Keys) {
        return Fail(InvalidCandidates(row, col));
      }
      if |candidates| == 1 {
        cell.Collapse(candidates[0]);
      } else {
        res := cell.UpdatePossibilities(candidates);
        if res.Fail? {
          OneCellChanged((row, col));
          assert State() == Put(g0, (row, col), g0[row][col]);
          SquareExtensionality(State(), g0);
          return;
        }
      }
      OneCellChanged((row, col));
      assert State() == Put(g0, (row, col), AssignedCell(candidates));
      res := PropagateConstraints(row, col, candidates);
    }

    /** `propagate_constraints`: each of the 20 neighbours is updated once, on
        its own; then the whole board is validated. */
    method PropagateConstraints(row: int, col: int, values: seq<int>) returns (res: Outcome)
      requires Valid() && InBoard((row, col))
      modifies Repr
      ensures Valid()
      ensures State() == Propagated(old(State()), row, col, values)
      ensures res == ValidateBoardConsistency(State())
    {
      ghost var g0 := State();
      var neighbors := Neighbors(row, col);
      PartlyPropagatedDone(g0, row, col, values);
      PartlyPropagatedStep(g0, row, col, values, 0);
      for k := 0 to |neighbors|
        invariant Valid()
        invariant State() == PartlyPropagated(g0, row, col, values, k)
      {
        PartlyPropagatedStep(g0, row, col, values, k);
        PropagateToNeighbor(neighbors[k], values);
      }
      res := ValidateBoardConsistency(State());
    }

    /** One step of the neighbour loop of `propagate_constraints`. */
    method PropagateToNeighbor(p: Pos, values: seq<int>)
      requires Valid() && InBoard(p)
      modifies board[p.0][p.1]
      ensures Valid()
      ensures State() == Put(old(State()), p, PropagatedCell(old(State())[p.0][p.1], values))
    {
      label before:
      var cell := board[p.0][p.1];
      assert cell as object != this;
      if |values| == 1 {
        if cell.fixedValue.None? {
          cell.RemoveCandidate(values[0]);
        }
      } else if !IsCollapsed(cell.Value()) {
        RemoveAllCandidates(cell, values);
      }
      OneCellChanged@before(p);
    }
  }

  /** The inner loop of the multi-value branch: each value removed in turn. */
  method RemoveAllCandidates(cell: SudokuCell, values: seq<int>)
    modifies cell
    ensures cell.Value() == RemovedAll(old(cell.Value()), values)
  {
    ghost var c0 := cell.Value();
    for k := 0 to |values|
      invariant cell.Value() == RemovedAll(c0, values[..k])
    {
      assert values[..k + 1][..k] == values[..k];
      cell.RemoveCandidate(values[k]);
    }
    assert values[..|values|] == values;
  }
}

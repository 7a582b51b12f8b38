/** What the state-changing operations of `QuantumSudokuBoard` do to the
    value of its grid, and the properties of those effects. */
module BoardSpec {
  import opened Common
  import opened Cell
  import opened Grid

  /** The state a cell of `initialize_from_array` starts in: fixed to a
      nonzero entry, unfixed for 0, without possibilities either way. */
  function InitialCell(value: int): (c: CellState)
    ensures c.possibilities == map[]
    ensures value != 0 ==> c.fixedValue == Some(value)
    ensures value == 0 ==> c.fixedValue == None
  {
    CellState(if value != 0 then Some(value) else None, map[])
  }

  /** The cells `initialize_from_array` creates, one per entry of the array. */
  function FromArray(a: seq<seq<int>>): (g: Grid)
    requires IsSquare(a)
    ensures forall i, j :: InBoard((i, j)) ==>
              && g[i][j].possibilities == map[]
              && (a[i][j] != 0 ==> g[i][j].fixedValue == Some(a[i][j]))
              && (a[i][j] == 0 ==> g[i][j].fixedValue == None)
  {
    seq(BoardSize, i requires 0 <= i < BoardSize =>
      seq(BoardSize, j requires 0 <= j < BoardSize => InitialCell(a[i][j])))
  }

  /** The all-zero array: the board `QuantumSudokuBoard()` starts from. */
  function ZeroArray(): (a: seq<seq<int>>)
    ensures IsSquare(a)
  {
    seq(BoardSize, i => seq(BoardSize, j => 0))
  }

  /** One cell after `initialize_board`: no fixed value changes and a fixed
      cell is left alone; an unfixed cell with candidates gets exactly the
      digits free in its row, column and block, each with weight 1/n; an
      unfixed cell without candidates is left alone. */
  function InitializedCell(g: Grid, i: int, j: int): (c: CellState)
    requires InBoard((i, j))
    ensures c.fixedValue == g[i][j].fixedValue
    ensures g[i][j].fixedValue.Some? || ValidCandidates(g, i, j) == {} ==> c == g[i][j]
    ensures g[i][j].fixedValue.None? && ValidCandidates(g, i, j) != {} ==>
              && IsUniform(c.possibilities)
              && forall d :: d in c.possibilities <==> 1 <= d <= BoardSize && FreeIn(g, i, j, d)
  {
    var c := g[i][j];
    if c.fixedValue.None? && ValidCandidates(g, i, j) != {} then
      c.(possibilities := Uniform(ValidCandidates(g, i, j)))
    else c
  }

  /** The grid after `initialize_board`: every cell initialised on its own,
      so no fixed value changes. */
  function Initialized(g: Grid): (h: Grid)
    ensures SameFixed(g, h)
    ensures forall i, j :: InBoard((i, j)) && g[i][j].fixedValue.Some? ==> h[i][j] == g[i][j]
  {
    seq(BoardSize, i requires 0 <= i < BoardSize =>
      seq(BoardSize, j requires 0 <= j < BoardSize => InitializedCell(g, i, j)))
  }

  /** g and h agree on every fixed value. */
  ghost predicate SameFixed(g: Grid, h: Grid) {
    forall i, j :: InBoard((i, j)) ==> g[i][j].fixedValue == h[i][j].fixedValue
  }

  /** Candidates depend only on the fixed values. */
  lemma CandidatesDependOnFixed(g: Grid, h: Grid, row: int, col: int)
    requires SameFixed(g, h) && InBoard((row, col))
    ensures ValidCandidates(g, row, col) == ValidCandidates(h, row, col)
  {
    forall d ensures FreeIn(g, row, col, d) == FreeIn(h, row, col, d) {
    }
  }

  /** Running `initialize_board` twice is the same as running it once. */
  lemma InitializedIdempotent(g: Grid)
    ensures Initialized(Initialized(g)) == Initialized(g)
  {
    var h := Initialized(g);
    assert SameFixed(g, h);
    forall i, j | InBoard((i, j)) ensures Initialized(h)[i][j] == h[i][j] {
      CandidatesDependOnFixed(g, h, i, j);
    }
    SquareExtensionality(Initialized(h), h);
  }

  /** With nothing fixed, every digit is a candidate everywhere. */
  lemma NothingFixedAllCandidates(g: Grid, i: int, j: int)
    requires InBoard((i, j))
    requires forall a, b :: InBoard((a, b)) ==> g[a][b].fixedValue == None
    ensures ValidCandidates(g, i, j) == Digits()
  {
    var vc := ValidCandidates(g, i, j);
    forall d ensures d in vc <==> d in Digits() {
      assert FreeIn(g, i, j, d);
    }
  }

  /** A new board is in full superposition: every cell unfixed, holding all
      nine digits with weight 1/9. */
  lemma NewBoardFullSuperposition(i: int, j: int)
    requires InBoard((i, j))
    ensures Initialized(FromArray(ZeroArray()))[i][j] == CellState(None, Uniform(Digits()))
  {
    var g := FromArray(ZeroArray());
    ZeroArrayUnfixed(g);
    NothingFixedAllCandidates(g, i, j);
    assert Initialized(g)[i][j] == InitializedCell(g, i, j);
  }

  lemma ZeroArrayUnfixed(g: Grid)
    requires g == FromArray(ZeroArray())
    ensures forall a, b :: InBoard((a, b)) ==> g[a][b] == CellState(None, map[])
  {
  }

  /** The first row of the witness below: 1..8, then an empty cell. */
  function AlmostFullRow(): (a: seq<seq<int>>)
    ensures IsSquare(a)
  {
    seq(BoardSize, i => seq(BoardSize, j => if i == 0 && j < 8 then j + 1 else 0))
  }

  /** `initialize_board` does not collapse: with 1..8 fixed in the first row,
      the empty cell (0, 8) keeps no fixed value and 9 as its only
      possibility. */
  lemma InitializeLeavesUnfixedSingleton()
    ensures Initialized(FromArray(AlmostFullRow()))[0][8] == CellState(None, map[9 := 1.0])
  {
    var g := FromArray(AlmostFullRow());
    AlmostFullRowCandidates(g);
    assert g[0][8].fixedValue == None;
    assert InitializedCell(g, 0, 8) == CellState(None, Uniform({9}));
    UniformSingleton(9);
  }

  lemma AlmostFullRowCandidates(g: Grid)
    requires g == FromArray(AlmostFullRow())
    ensures ValidCandidates(g, 0, 8) == {9}
  {
    var vc := ValidCandidates(g, 0, 8);
    forall d ensures d in vc <==> d == 9 {
      if 1 <= d <= 8 {
        AlmostFullRowUsed(g, d);
      } else if d == 9 {
        AlmostFullRowNineFree(g);
      }
    }
  }

  lemma AlmostFullRowUsed(g: Grid, d: int)
    requires g == FromArray(AlmostFullRow()) && 1 <= d <= 8
    ensures !FreeIn(g, 0, 8, d)
  {
    assert g[0][d - 1].fixedValue == Some(d);
    assert SameUnit((0, d - 1), (0, 8));
  }

  lemma AlmostFullRowNineFree(g: Grid)
    requires g == FromArray(AlmostFullRow())
    ensures FreeIn(g, 0, 8, 9)
  {
    forall i, j | InBoard((i, j)) ensures g[i][j].fixedValue != Some(9) {
      assert AlmostFullRow()[i][j] <= 8;
    }
  }

  lemma UniformSingleton(k: int)
    ensures Uniform({k}) == map[k := 1.0]
  {
    var m := Uniform({k});
    assert |m| == 1;
    assert m[k] * 1.0 == 1.0;
  }

  /** The grid after the loop of `initialize_board` has visited rows 0..i-1
      and the first j cells of row i. */
  function PartlyInitialized(g: Grid, i: int, j: int): Grid {
    seq(BoardSize, a requires 0 <= a < BoardSize =>
      seq(BoardSize, b requires 0 <= b < BoardSize =>
        if a < i || (a == i && b < j) then InitializedCell(g, a, b) else g[a][b]))
  }

  /** Before the loop nothing is initialised; after it, everything. */
  lemma PartlyInitializedEnds(g: Grid)
    ensures PartlyInitialized(g, 0, 0) == g
    ensures PartlyInitialized(g, BoardSize, 0) == Initialized(g)
  {
    SquareExtensionality(PartlyInitialized(g, 0, 0), g);
    SquareExtensionality(PartlyInitialized(g, BoardSize, 0), Initialized(g));
  }

  /** A finished row is the start of the next one. */
  lemma PartlyInitializedRow(g: Grid, i: int)
    ensures PartlyInitialized(g, i, BoardSize) == PartlyInitialized(g, i + 1, 0)
  {
    SquareExtensionality(PartlyInitialized(g, i, BoardSize), PartlyInitialized(g, i + 1, 0));
  }

  /** One more cell of the loop of `initialize_board`: it is still in its
      original state, its candidates are those of the original grid (the loop
      changes no fixed value), and it becomes InitializedCell. */
  lemma PartlyInitializedStep(g: Grid, i: int, j: int)
    requires InBoard((i, j))
    ensures PartlyInitialized(g, i, j)[i][j] == g[i][j]
    ensures ValidCandidates(PartlyInitialized(g, i, j), i, j) == ValidCandidates(g, i, j)
    ensures InitializedCell(PartlyInitialized(g, i, j), i, j) == InitializedCell(g, i, j)
    ensures PartlyInitialized(g, i, j + 1)
            == Put(PartlyInitialized(g, i, j), (i, j), InitializedCell(g, i, j))
  {
    var h := PartlyInitialized(g, i, j);
    PartlyInitializedSameFixed(g, i, j);
    CandidatesDependOnFixed(h, g, i, j);
    PartlyInitializedNext(g, i, j);
  }

  lemma PartlyInitializedSameFixed(g: Grid, i: int, j: int)
    ensures SameFixed(PartlyInitialized(g, i, j), g)
  {
    var h := PartlyInitialized(g, i, j);
    forall a, b | InBoard((a, b)) ensures h[a][b].fixedValue == g[a][b].fixedValue {
    }
  }

  lemma PartlyInitializedNext(g: Grid, i: int, j: int)
    requires InBoard((i, j))
    ensures PartlyInitialized(g, i, j + 1)
            == Put(PartlyInitialized(g, i, j), (i, j), InitializedCell(g, i, j))
  {
    var h := PartlyInitialized(g, i, j);
    var h' := PartlyInitialized(g, i, j + 1);
    var u := Put(h, (i, j), InitializedCell(g, i, j));
    forall a, b | InBoard((a, b)) ensures h'[a][b] == u[a][b] {
      if (a, b) != (i, j) {
        assert u[a][b] == h[a][b];
      }
    }
    SquareExtensionality(h', u);
  }

  // ---------------------------------------------------------------------
  // propagate_constraints

  /** One neighbour after `propagate_constraints(row, col, values)`. A single
      value skips neighbours with a fixed value and removes it from the others,
      which can then not be fixed to it; several values skip collapsed
      neighbours (fixed, or down to one possibility) and remove each value in
      turn from the others. */
  ghost function PropagatedCell(c: CellState, values: seq<int>): (r: CellState)
    ensures |values| == 1 && c.fixedValue.Some? ==> r == c
    ensures |values| == 1 && c.fixedValue.None? ==>
              && r.possibilities.Keys == c.possibilities.Keys - {values[0]}
              && r.fixedValue != Some(values[0])
    ensures |values| != 1 && IsCollapsed(c) ==> r == c
    ensures |values| != 1 && !IsCollapsed(c) ==> r.possibilities.Keys == c.possibilities.Keys - set x | x in values
  {
    if |values| == 1 then
      if c.fixedValue.Some? then c
      else
        RemovedExcludes(c, values[0]);
        Removed(c, values[0])
    else if IsCollapsed(c) then c
    else RemovedAll(c, values)
  }

  /** The grid after the neighbour loop of `propagate_constraints`: every
      neighbour updated on its own from its old state; the values cell itself
      and every cell outside its row, column and block keep their state. In
      particular a neighbour that auto-collapses to w does not remove w from
      its own peers. */
  ghost function Propagated(g: Grid, row: int, col: int, values: seq<int>): (h: Grid)
    ensures forall i, j :: IsPeer((row, col), (i, j)) ==> h[i][j] == PropagatedCell(g[i][j], values)
    ensures forall i, j :: InBoard((i, j)) && !IsPeer((row, col), (i, j)) ==> h[i][j] == g[i][j]
  {
    seq(BoardSize, i requires 0 <= i < BoardSize =>
      seq(BoardSize, j requires 0 <= j < BoardSize =>
        if IsPeer((row, col), (i, j)) then PropagatedCell(g[i][j], values) else g[i][j]))
  }

  /** The grid after the first k neighbours of the loop of
      `propagate_constraints`. */
  ghost function PartlyPropagated(g: Grid, row: int, col: int, values: seq<int>, k: int): Grid
    requires 0 <= k <= |Neighbors(row, col)|
  {
    seq(BoardSize, i requires 0 <= i < BoardSize =>
      seq(BoardSize, j requires 0 <= j < BoardSize =>
        if (i, j) in Neighbors(row, col)[..k] then PropagatedCell(g[i][j], values) else g[i][j]))
  }

  /** One more neighbour of the loop of `propagate_constraints`; it has not
      been visited before, so it is updated from its original state. */
  lemma PartlyPropagatedStep(g: Grid, row: int, col: int, values: seq<int>, k: int)
    requires InBoard((row, col)) && 0 <= k < 20
    ensures |Neighbors(row, col)| == 20 && InBoard(Neighbors(row, col)[k])
    ensures PartlyPropagated(g, row, col, values, 0) == g
    ensures At(PartlyPropagated(g, row, col, values, k), Neighbors(row, col)[k]) == At(g, Neighbors(row, col)[k])
    ensures PartlyPropagated(g, row, col, values, k + 1)
            == Put(PartlyPropagated(g, row, col, values, k), Neighbors(row, col)[k],
                          PropagatedCell(At(g, Neighbors(row, col)[k]), values))
  {
    var ns := Neighbors(row, col);
    NeighborsArePeers(row, col);
    assert ns[k] in ns;
    assert ns[k] !in ns[..k];
    SquareExtensionality(PartlyPropagated(g, row, col, values, 0), g);
    PartlyPropagatedNext(g, row, col, values, k);
  }

  lemma PartlyPropagatedNext(g: Grid, row: int, col: int, values: seq<int>, k: int)
    requires InBoard((row, col)) && 0 <= k < 20
    requires |Neighbors(row, col)| == 20 && InBoard(Neighbors(row, col)[k])
    requires Neighbors(row, col)[k] !in Neighbors(row, col)[..k]
    ensures PartlyPropagated(g, row, col, values, k + 1)
            == Put(PartlyPropagated(g, row, col, values, k), Neighbors(row, col)[k],
                   PropagatedCell(At(g, Neighbors(row, col)[k]), values))
  {
    var ns := Neighbors(row, col);
    var h' := PartlyPropagated(g, row, col, values, k + 1);
    var u := Put(PartlyPropagated(g, row, col, values, k), ns[k], PropagatedCell(At(g, ns[k]), values));
    forall i, j | InBoard((i, j)) ensures h'[i][j] == u[i][j] {
      PartlyPropagatedCell(g, row, col, values, k, (i, j));
    }
    SquareExtensionality(h', u);
  }

  /** Cell p after k + 1 neighbours: the visited neighbour is updated from
      its original state, every other cell is as after k. */
  lemma PartlyPropagatedCell(g: Grid, row: int, col: int, values: seq<int>, k: int, p: Pos)
    requires InBoard((row, col)) && 0 <= k < 20 && InBoard(p)
    requires |Neighbors(row, col)| == 20 && InBoard(Neighbors(row, col)[k])
    ensures At(PartlyPropagated(g, row, col, values, k + 1), p)
            == if p == Neighbors(row, col)[k] then PropagatedCell(At(g, p), values)
               else At(PartlyPropagated(g, row, col, values, k), p)
  {
    var ns := Neighbors(row, col);
    PrefixMember(ns, k, p);
  }

  lemma PrefixMember(ns: seq<Pos>, k: int, p: Pos)
    requires 0 <= k < |ns|
    ensures p in ns[..k + 1] <==> p == ns[k] || p in ns[..k]
  {
    assert ns[..k + 1] == ns[..k] + [ns[k]];
  }

  /** After all 20 neighbours the loop has produced Propagated. */
  lemma PartlyPropagatedDone(g: Grid, row: int, col: int, values: seq<int>)
    requires InBoard((row, col))
    ensures |Neighbors(row, col)| == 20
    ensures PartlyPropagated(g, row, col, values, 20) == Propagated(g, row, col, values)
  {
    NeighborsArePeers(row, col);
    assert Neighbors(row, col)[..20] == Neighbors(row, col);
    SquareExtensionality(PartlyPropagated(g, row, col, values, 20), Propagated(g, row, col, values));
  }

  /** A cell with one possibility v and no fixed value (as `initialize_board`
      can leave it) is emptied by a single-value assignment of v to a peer,
      but skipped as collapsed by a multi-value one. */
  lemma UnfixedSingletonBranches(c: CellState, v: int, w: int)
    requires c.fixedValue.None? && c.possibilities.Keys == {v}
    ensures IsEmptyCell(PropagatedCell(c, [v]))
    ensures PropagatedCell(c, [v, w]) == c
  {
    var r := PropagatedCell(c, [v]);
    assert r.possibilities.Keys == {};
    assert |r.possibilities| == 0;
  }

  /** Removing several values in turn can fix a neighbour to one of them:
      {1, 2} minus 1 collapses to 2, and removing 2 then empties the
      possibilities but keeps the fixed value 2. */
  lemma MultiRemovalCanFixAssignedDigit()
    ensures RemovedAll(CellState(None, map[1 := 0.5, 2 := 0.5]), [1, 2]) == CellState(Some(2), map[])
  {
    var c := CellState(None, map[1 := 0.5, 2 := 0.5]);
    assert [1, 2][..1] == [1];
    assert [1][..0] == [];
    var c1 := Removed(c, 1);
    assert c1.possibilities.Keys == {2};
    assert c1 == Collapsed(2);
    assert RemovedAll(c, [1]) == c1;
    var c2 := Removed(c1, 2);
    assert c2.possibilities.Keys == {};
  }

  // ---------------------------------------------------------------------
  // user_assign

  /** The checks `user_assign` makes before changing anything (its
      `update_possibilities` call raising on an empty list included): it
      raises exactly when the cell is fixed, or a candidate is not among its
      possibilities, or the list is empty. */
  function AssignCheck(g: Grid, row: int, col: int, candidates: seq<int>): (r: Outcome)
    requires InBoard((row, col))
    ensures r.Fail? <==>
              g[row][col].fixedValue.Some? || candidates == []
              || exists x :: x in candidates && x !in g[row][col].possibilities
  {
    var c := g[row][col];
    if c.fixedValue.Some? then Fail(AlreadyFixed(row, col, c.fixedValue.value))
    else if !((set x | x in candidates) <= c.possibilities.Keys) then
      ListedWithin(candidates, c.possibilities.Keys);
      Fail(InvalidCandidates(row, col))
    else if candidates == [] then Fail(EmptyCandidates)
    else Pass
  }

  /** The set of a list lies within keys exactly when each element does. */
  lemma ListedWithin(xs: seq<int>, keys: set<int>)
    ensures (set x | x in xs) <= keys <==> forall x :: x in xs ==> x in keys
  {
    if forall x :: x in xs ==> x in keys {
      assert forall y :: y in (set x | x in xs) ==> y in keys;
    }
  }

  /** The values cell: `collapse` for one candidate, fixing the cell to it;
      `update_possibilities` otherwise, leaving it unfixed. Either way its
      keys are exactly the candidates. */
  function AssignedCell(candidates: seq<int>): (c: CellState)
    ensures |candidates| == 1 ==> c.fixedValue == Some(candidates[0])
    ensures |candidates| != 1 ==> c.fixedValue == None
    ensures c.possibilities.Keys == set x | x in candidates
  {
    if |candidates| == 1 then
      assert (set x | x in candidates) == {candidates[0]};
      Collapsed(candidates[0])
    else WithCandidates(candidates)
  }

  /** The grid after a `user_assign` that passed its checks, before
      validation: the values cell is assigned, each neighbour is propagated
      from its own old state, and nothing else changes. */
  ghost function Assigned(g: Grid, row: int, col: int, candidates: seq<int>): (h: Grid)
    requires InBoard((row, col))
    ensures h[row][col] == AssignedCell(candidates)
    ensures forall i, j :: IsPeer((row, col), (i, j)) ==> h[i][j] == PropagatedCell(g[i][j], candidates)
    ensures forall i, j :: InBoard((i, j)) && (i, j) != (row, col) && !IsPeer((row, col), (i, j)) ==>
              h[i][j] == g[i][j]
  {
    var g1 := Put(g, (row, col), AssignedCell(candidates));
    assert !IsPeer((row, col), (row, col));
    Propagated(g1, row, col, candidates)
  }

  /** The target of an accepted assignment: fixed to a single candidate, or
      restricted to exactly the candidates, all of them among its former
      possibilities. */
  lemma AssignedTarget(g: Grid, row: int, col: int, candidates: seq<int>)
    requires InBoard((row, col)) && AssignCheck(g, row, col, candidates).Pass?
    ensures |candidates| == 1 ==>
              Assigned(g, row, col, candidates)[row][col].fixedValue == Some(candidates[0])
    ensures |candidates| != 1 ==>
              Assigned(g, row, col, candidates)[row][col].fixedValue == None
    ensures Assigned(g, row, col, candidates)[row][col].possibilities.Keys == set x | x in candidates
    ensures Assigned(g, row, col, candidates)[row][col].possibilities.Keys <= g[row][col].possibilities.Keys
  {
  }

  /** Removing v from a cell without a fixed value never leaves v behind,
      neither as a possibility nor as the value it collapses to. */
  lemma RemovedExcludes(c: CellState, v: int)
    requires c.fixedValue.None?
    ensures Removed(c, v).fixedValue != Some(v)
    ensures v !in Removed(c, v).possibilities
  {
    var r := Removed(c, v);
    if v in c.possibilities && |r.possibilities.Keys| == 1 {
      assert r.fixedValue.value in r.possibilities.Keys;
    }
  }

  lemma ClashRejected(h: Grid, p: Pos, q: Pos)
    requires Clash(h, p, q) && SameUnit(p, q)
    ensures ValidateBoardConsistency(h).Fail?
  {
    ValidateRaisesIff(h);
  }

  lemma PeerExcludesDigit(h: Grid, row: int, col: int, v: int, c: CellState, p: Pos)
    requires IsPeer((row, col), p) && ValidateBoardConsistency(h).Pass?
    requires At(h, (row, col)).fixedValue == Some(v) && At(h, p) == PropagatedCell(c, [v])
    ensures At(h, p).fixedValue != Some(v)
    ensures c.fixedValue.None? ==> v !in At(h, p).possibilities
  {
    if c.fixedValue.None? {
      RemovedExcludes(c, v);
    } else if At(h, p).fixedValue == Some(v) {
      ClashRejected(h, (row, col), p);
    }
  }

  /** When a single-value assignment of v also passes validation, no peer of
      the cell is fixed to v and no peer that was unfixed still holds v. */
  lemma AcceptedSingleAssignExcludesDigit(g: Grid, row: int, col: int, v: int, p: Pos)
    requires InBoard((row, col)) && AssignCheck(g, row, col, [v]).Pass?
    requires ValidateBoardConsistency(Assigned(g, row, col, [v])).Pass?
    requires IsPeer((row, col), p)
    ensures At(Assigned(g, row, col, [v]), p).fixedValue != Some(v)
    ensures At(g, p).fixedValue.None? ==> v !in At(Assigned(g, row, col, [v]), p).possibilities
  {
    AssignedTarget(g, row, col, [v]);
    PeerExcludesDigit(Assigned(g, row, col, [v]), row, col, v, At(g, p), p);
  }
}

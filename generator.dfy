/** Puzzle generation: a solved board grown from a few random seed
    placements, then cells removed according to the difficulty. The random
    draws are parameters of the model. */
module Generator {
  import opened Common
  import opened Solver

  /** `generate_random_sudoku`: the range `random.randint` draws
      `cells_to_keep` from; any difficulty other than "easy" and "medium"
      counts as hard. */
  function KeepRange(difficulty: string): (r: (int, int))
    ensures difficulty == "easy" ==> r == (35, 40)
    ensures difficulty == "medium" ==> r == (25, 34)
    ensures difficulty != "easy" && difficulty != "medium" ==> r == (17, 24)
  {
    if difficulty == "easy" then (35, 40)
    else if difficulty == "medium" then (25, 34)
    else (17, 24)
  }

  /** Whatever the difficulty, between 17 and 40 cells are kept, so between
      41 and 64 are removed; and the harder the difficulty the fewer cells
      kept: every hard count is below every medium count, which is below
      every easy count. */
  lemma KeepRangeOrdered(difficulty: string, keep: int)
    requires KeepRange(difficulty).0 <= keep <= KeepRange(difficulty).1
    ensures 17 <= keep <= 40
    ensures 41 <= BoardSize * BoardSize - keep <= 64
    ensures KeepRange("hard").1 < KeepRange("medium").0
    ensures KeepRange("medium").1 < KeepRange("easy").0
  {
  }

  /** One of the five seeding draws of `generate_solved_board`: a cell and a
      shuffled order of the digits to try there. */
  datatype Seed = Seed(row: int, col: int, order: seq<int>)

  /** What `random.randint(0, 8)` and `random.shuffle(list(range(1, 10)))` can produce. */
  predicate ValidSeed(s: Seed) {
    InBoard((s.row, s.col)) && forall k :: 0 <= k < |s.order| ==> 1 <= s.order[k] <= BoardSize
  }

  /** The all-zero board. */
  function EmptyGrid(): (g: IntGrid)
    ensures forall i, j :: InBoard((i, j)) ==> g[i][j] == 0
  {
    seq(BoardSize, i => seq(BoardSize, j => 0))
  }

  /** `[[0 for _ in range(9)] for _ in range(9)]`. */
  method EmptyBoard() returns (b: array2<int>)
    ensures fresh(b) && IsBoard(b)
    ensures Snapshot(b) == EmptyGrid()
  {
    b := new int[BoardSize, BoardSize];
    for i := 0 to BoardSize
      invariant forall a, c :: 0 <= a < i && 0 <= c < BoardSize ==> b[a, c] == 0
    {
      for j := 0 to BoardSize
        invariant forall a, c :: 0 <= a < i && 0 <= c < BoardSize ==> b[a, c] == 0
        invariant forall c :: 0 <= c < j ==> b[i, c] == 0
      {
        b[i, j] := 0;
      }
    }
    SquareExtensionality(Snapshot(b), EmptyGrid());
  }

  /** The all-zero board holds no conflict. */
  lemma EmptyConflictFree(g: IntGrid)
    requires forall i, j :: InBoard((i, j)) ==> g[i][j] == 0
    ensures ConflictFree(g) && InRange(g)
  {
  }

  /** The first digit of `order` that does not yet occur in the row, column
      or block of (row, col): the one the loop over the shuffled digits
      writes; None when every digit occurs there. */
  ghost function FirstFit(g: IntGrid, row: int, col: int, order: seq<int>): (r: Option<int>)
    ensures r.None? <==> forall k :: 0 <= k < |order| ==> Occurs(g, row, col, order[k])
    ensures r.Some? ==> r.value in order && !Occurs(g, row, col, r.value)
    decreases |order|
  {
    if order == [] then None
    else if !Occurs(g, row, col, order[0]) then Some(order[0])
    else
      var r := FirstFit(g, row, col, order[1..]);
      assert forall k :: 1 <= k < |order| ==> order[k] == order[1..][k - 1];
      r
  }

  /** FirstFit is the earliest digit of the order that fits: every digit
      before it already occurs in a unit of the cell. */
  lemma {:induction false} FirstFitIsFirst(g: IntGrid, row: int, col: int, order: seq<int>)
    requires FirstFit(g, row, col, order).Some?
    ensures exists k :: 0 <= k < |order| && order[k] == FirstFit(g, row, col, order).value
                        && forall a :: 0 <= a < k ==> Occurs(g, row, col, order[a])
    decreases |order|
  {
    if Occurs(g, row, col, order[0]) {
      var rest := order[1..];
      FirstFitIsFirst(g, row, col, rest);
      var k :| 0 <= k < |rest| && rest[k] == FirstFit(g, row, col, rest).value
               && forall a :: 0 <= a < k ==> Occurs(g, row, col, rest[a]);
      assert order[k + 1] == rest[k];
      assert forall a :: 1 <= a < k + 1 ==> order[a] == rest[a - 1];
    } else {
      assert order[0] == FirstFit(g, row, col, order).value;
    }
  }

  /** The board after one seeding draw: unchanged if the drawn cell is
      filled or no digit of the order fits there; otherwise the drawn cell
      holds the first digit that fits. */
  ghost function Seeded(g: IntGrid, s: Seed): (h: IntGrid)
    requires InBoard((s.row, s.col))
    ensures forall i, j :: InBoard((i, j)) && (i, j) != (s.row, s.col) ==> h[i][j] == g[i][j]
    ensures g[s.row][s.col] != 0 || FirstFit(g, s.row, s.col, s.order).None? ==> h == g
    ensures g[s.row][s.col] == 0 && FirstFit(g, s.row, s.col, s.order).Some? ==>
              h[s.row][s.col] == FirstFit(g, s.row, s.col, s.order).value
  {
    if g[s.row][s.col] != 0 then g
    else match FirstFit(g, s.row, s.col, s.order)
      case None => g
      case Some(v) => Put(g, (s.row, s.col), v)
  }

  /** A seeding draw keeps a conflict-free board in range conflict-free and
      in range, and keeps every filled cell. */
  lemma SeededConflictFree(g: IntGrid, s: Seed)
    requires ValidSeed(s) && ConflictFree(g) && InRange(g)
    ensures ConflictFree(Seeded(g, s)) && InRange(Seeded(g, s))
    ensures KeepsGivens(g, Seeded(g, s))
  {
    if g[s.row][s.col] == 0 && FirstFit(g, s.row, s.col, s.order).Some? {
      var v := FirstFit(g, s.row, s.col, s.order).value;
      PlacementKeepsConflictFree(g, (s.row, s.col), v);
    }
  }

  /** One seeding draw of `generate_solved_board`: if the cell is empty, the
      digits of the shuffled order are tried in turn and the first one
      `is_valid_placement` accepts is written there. */
  method PlaceSeed(b: array2<int>, s: Seed)
    requires IsBoard(b) && ValidSeed(s)
    modifies b
    ensures Snapshot(b) == Seeded(old(Snapshot(b)), s)
  {
    ghost var g0 := Snapshot(b);
    if b[s.row, s.col] == 0 {
      for k := 0 to |s.order|
        invariant Snapshot(b) == g0
        invariant FirstFit(g0, s.row, s.col, s.order) == FirstFit(g0, s.row, s.col, s.order[k..])
      {
        var num := s.order[k];
        assert s.order[k..][1..] == s.order[k + 1..];
        var ok := IsValidPlacement(b, s.row, s.col, num);
        if ok {
          Place(b, s.row, s.col, num);
          return;
        }
      }
      assert s.order[|s.order|..] == [];
    }
  }

  /** The board after the seeding draws `seeds`, in order, starting from g. */
  ghost function SeededAll(g: IntGrid, seeds: seq<Seed>): IntGrid
    requires forall k :: 0 <= k < |seeds| ==> ValidSeed(seeds[k])
    decreases |seeds|
  {
    if seeds == [] then g
    else
      var init := seeds[..|seeds| - 1];
      assert forall k :: 0 <= k < |init| ==> init[k] == seeds[k];
      assert ValidSeed(seeds[|seeds| - 1]);
      Seeded(SeededAll(g, init), seeds[|seeds| - 1])
  }

  /** One more seeding draw. */
  lemma SeededAllStep(g: IntGrid, seeds: seq<Seed>, k: int)
    requires 0 <= k < |seeds| && forall a :: 0 <= a < |seeds| ==> ValidSeed(seeds[a])
    ensures forall a :: 0 <= a < k ==> ValidSeed(seeds[..k][a])
    ensures SeededAll(g, seeds[..k + 1]) == Seeded(SeededAll(g, seeds[..k]), seeds[k])
  {
    assert seeds[..k + 1][..k] == seeds[..k];
  }

  /** `generate_solved_board`: five seeding draws on an empty board, then
      `solve_sudoku`, whose answer is ignored. The board is conflict-free
      either way. It is full, keeping the seeded digits, when the solver
      succeeds; otherwise it is the seeded board itself, with empty cells,
      which `generate_solved_board` does not check. */
  method GenerateSolvedBoard(seeds: seq<Seed>) returns (b: array2<int>)
    requires |seeds| == 5 && forall k :: 0 <= k < |seeds| ==> ValidSeed(seeds[k])
    ensures fresh(b) && IsBoard(b)
    ensures ConflictFree(Snapshot(b)) && InRange(Snapshot(b))
    ensures KeepsGivens(SeededAll(EmptyGrid(), seeds), Snapshot(b))
    ensures ZeroCells(Snapshot(b)) == {} || Snapshot(b) == SeededAll(EmptyGrid(), seeds)
  {
    b := EmptyBoard();
    EmptyConflictFree(Snapshot(b));
    for k := 0 to 5
      invariant ConflictFree(Snapshot(b)) && InRange(Snapshot(b))
      invariant Snapshot(b) == SeededAll(EmptyGrid(), seeds[..k])
    {
      SeededAllStep(EmptyGrid(), seeds, k);
      SeededConflictFree(Snapshot(b), seeds[k]);
      PlaceSeed(b, seeds[k]);
    }
    assert seeds[..5] == seeds;
    ghost var g0 := Snapshot(b);
    var solved := SolveSudoku(b);
    if solved {
      SolutionInRange(g0, Snapshot(b));
    }
  }

  /** Five seeding draws, each valid on its own, that leave no room for a
      1 in the top-left block: 1 at (0, 3), (1, 6), (3, 0) and (6, 1) rule
      out its first two rows and first two columns, and 2 fills (2, 2). */
  function StuckSeeds(): (seeds: seq<Seed>)
    ensures |seeds| == 5 && forall k :: 0 <= k < |seeds| ==> ValidSeed(seeds[k])
  {
    var ones := [1, 2, 3, 4, 5, 6, 7, 8, 9];
    var twos := [2, 1, 3, 4, 5, 6, 7, 8, 9];
    [Seed(0, 3, ones), Seed(1, 6, ones), Seed(3, 0, ones), Seed(6, 1, ones), Seed(2, 2, twos)]
  }

  /** The board after the first n draws of StuckSeeds, cell by cell. */
  function StuckValue(n: int, i: int, j: int): int {
    if n > 0 && (i, j) == (0, 3) then 1
    else if n > 1 && (i, j) == (1, 6) then 1
    else if n > 2 && (i, j) == (3, 0) then 1
    else if n > 3 && (i, j) == (6, 1) then 1
    else if n > 4 && (i, j) == (2, 2) then 2
    else 0
  }

  function StuckGrid(n: int): IntGrid {
    seq(BoardSize, i => seq(BoardSize, j => StuckValue(n, i, j)))
  }

  /** Each draw of StuckSeeds finds its first digit absent from the row,
      the column and the block of its cell. */
  lemma StuckFits(n: int)
    requires 0 <= n < 5
    ensures !Occurs(StuckGrid(n), StuckSeeds()[n].row, StuckSeeds()[n].col, StuckSeeds()[n].order[0])
  {
    var g, s := StuckGrid(n), StuckSeeds()[n];
    forall i, j | InBoard((i, j)) && SameUnit((i, j), (s.row, s.col)) ensures g[i][j] != s.order[0] {
      BlockStartFacts(i);
      BlockStartFacts(j);
    }
  }

  /** Each draw of StuckSeeds finds its cell empty and its first digit
      accepted by `is_valid_placement`. */
  lemma StuckStep(n: int)
    requires 0 <= n < 5
    ensures Seeded(StuckGrid(n), StuckSeeds()[n]) == StuckGrid(n + 1)
  {
    var g, s := StuckGrid(n), StuckSeeds()[n];
    StuckFits(n);
    assert FirstFit(g, s.row, s.col, s.order) == Some(s.order[0]);
    var h, g1 := Seeded(g, s), StuckGrid(n + 1);
    forall i, j | InBoard((i, j)) ensures h[i][j] == g1[i][j] {
      if (i, j) != (s.row, s.col) {
        assert h[i][j] == g[i][j] == StuckValue(n, i, j);
        assert g1[i][j] == StuckValue(n + 1, i, j);
      }
    }
    SquareExtensionality(h, g1);
  }

  /** The seeding loop of `generate_solved_board` on StuckSeeds. */
  lemma {:induction false} StuckSeeded(n: int)
    requires 0 <= n <= 5
    ensures SeededAll(EmptyGrid(), StuckSeeds()[..n]) == StuckGrid(n)
  {
    if n == 0 {
      SquareExtensionality(EmptyGrid(), StuckGrid(0));
    } else {
      StuckSeeded(n - 1);
      SeededAllStep(EmptyGrid(), StuckSeeds(), n - 1);
      StuckStep(n - 1);
    }
  }

  /** After StuckSeeds the board has five filled cells and 76 empty ones. */
  lemma StuckZeroCells()
    ensures |ZeroCells(StuckGrid(5))| == BoardSize * BoardSize - 5
  {
    var g, cells := StuckGrid(5), Cells(BoardSize);
    var filled := {(0, 3), (1, 6), (3, 0), (6, 1), (2, 2)};
    ZeroCellsBound(g);
    forall p | p in ZeroCells(g) ensures p in cells - filled {
    }
    forall p | p in cells - filled ensures p in ZeroCells(g) {
      assert g[p.0][p.1] == StuckValue(5, p.0, p.1);
    }
    assert ZeroCells(g) == cells - filled;
    assert |filled| == 5;
    assert cells == (cells - filled) + filled;
    assert (cells - filled) * filled == {};
  }

  /** The solutions of the board StuckSeeds leaves: every cell keeps its
      digit or, where it was empty, holds a digit, and no unit repeats one. */
  ghost predicate StuckSolution(h: IntGrid) {
    KeepsGivens(StuckGrid(5), h) && FillsBlanks(StuckGrid(5), h) && ConflictFree(h)
  }

  /** What a solution of the stuck board holds around the top-left block:
      the four seeded 1s, the seeded 2 at (2, 2), and a digit in each other
      cell of the block. */
  lemma StuckSolutionFacts(h: IntGrid)
    requires StuckSolution(h)
    ensures h[0][3] == 1 && h[1][6] == 1 && h[3][0] == 1 && h[6][1] == 1 && h[2][2] == 2
    ensures forall i, j :: 0 <= i < BlockSize && 0 <= j < BlockSize ==> 1 <= h[i][j] <= BoardSize
  {
    var g := StuckGrid(5);
    assert g[0][3] == 1 && g[1][6] == 1 && g[3][0] == 1 && g[6][1] == 1 && g[2][2] == 2;
    forall i, j | 0 <= i < BlockSize && 0 <= j < BlockSize ensures 1 <= h[i][j] <= BoardSize {
      if (i, j) != (2, 2) {
        assert g[i][j] == 0;
      }
    }
  }

  /** A conflict-free board holds different digits in two distinct cells
      of one unit. */
  lemma UnitDistinct(h: IntGrid, p: Pos, q: Pos)
    requires ConflictFree(h) && InBoard(p) && InBoard(q) && p != q && SameUnit(p, q)
    requires h[p.0][p.1] != 0
    ensures h[p.0][p.1] != h[q.0][q.1]
  {
  }

  /** Every cell of the top-left block other than (2, 2) shares a unit with
      one of the 1s at (0, 3), (1, 6), (3, 0) and (6, 1), so a conflict-free
      board holding them has no 1 there. */
  lemma StuckBlockCell(h: IntGrid, i: int, j: int)
    requires ConflictFree(h) && h[0][3] == 1 && h[1][6] == 1 && h[3][0] == 1 && h[6][1] == 1
    requires 0 <= i < BlockSize && 0 <= j < BlockSize && (i, j) != (2, 2)
    ensures h[i][j] != 1
  {
    var one := if i == 0 then (0, 3) else if i == 1 then (1, 6) else if j == 0 then (3, 0) else (6, 1);
    UnitDistinct(h, one, (i, j));
  }

  /** Two distinct cells of the top-left block hold different digits in a
      conflict-free board whose block is full. */
  lemma BlockDistinct(h: IntGrid, a: int, b: int)
    requires ConflictFree(h) && 0 <= a < b < BoardSize
    requires forall i, j :: 0 <= i < BlockSize && 0 <= j < BlockSize ==> 1 <= h[i][j] <= BoardSize
    ensures h[a / 3][a % 3] != h[b / 3][b % 3]
  {
    var p, q := (a / 3, a % 3), (b / 3, b % 3);
    assert 0 <= p.0 < BlockSize && 0 <= p.1 < BlockSize && 0 <= q.0 < BlockSize && 0 <= q.1 < BlockSize;
    assert p != q;
    assert SameBlock(p, q) by {
      BlockStartFacts(p.0);
      BlockStartFacts(p.1);
      BlockStartFacts(q.0);
      BlockStartFacts(q.1);
    }
    UnitDistinct(h, p, q);
  }

  /** The top-left block of a board, row by row. */
  function TopLeft(h: IntGrid): (s: seq<int>)
    ensures |s| == BoardSize && forall k :: 0 <= k < BoardSize ==> s[k] == h[k / 3][k % 3]
  {
    seq(BoardSize, k requires 0 <= k < BoardSize => h[k / 3][k % 3])
  }

  /** A conflict-free board whose top-left block is full of digits holds a
      1 in that block: nine distinct digits are all of them. */
  lemma FullBlockHasOne(h: IntGrid)
    requires ConflictFree(h)
    requires forall i, j :: 0 <= i < BlockSize && 0 <= j < BlockSize ==> 1 <= h[i][j] <= BoardSize
    ensures exists i, j :: 0 <= i < BlockSize && 0 <= j < BlockSize && h[i][j] == 1
  {
    if forall i, j :: 0 <= i < BlockSize && 0 <= j < BlockSize ==> h[i][j] != 1 {
      var block := TopLeft(h);
      forall k | 0 <= k < BoardSize ensures block[k] in Others() {
        assert 0 <= k / 3 < BlockSize && 0 <= k % 3 < BlockSize;
      }
      forall a, b | 0 <= a < b < BoardSize ensures block[a] != block[b] {
        BlockDistinct(h, a, b);
      }
      DistinctWithin(block, Others());
      assert false;
    }
  }

  /** No solution of the board StuckSeeds leaves exists: its top-left block
      would need a 1, and every cell there either keeps the seeded 2 or
      shares a unit with a seeded 1. So `solve_sudoku` fails there, and
      `generate_solved_board` returns the seeded board. */
  lemma StuckUnsolvable(h: IntGrid)
    ensures !StuckSolution(h)
  {
    if StuckSolution(h) {
      StuckSolutionFacts(h);
      FullBlockHasOne(h);
      var i, j :| 0 <= i < BlockSize && 0 <= j < BlockSize && h[i][j] == 1;
      if (i, j) == (2, 2) {
        assert false;
      } else {
        StuckBlockCell(h, i, j);
        assert false;
      }
    }
  }

  /** The digits other than 1. */
  function Others(): (ds: set<int>)
    ensures |ds| == 8 && forall d :: d in ds <==> 2 <= d <= BoardSize
  {
    {2, 3, 4, 5, 6, 7, 8, 9}
  }

  /** `generate_solved_board` on StuckSeeds: the seeding loop leaves five
      filled cells, `solve_sudoku` finds no solution and restores them, and
      the board returned keeps only those five digits, fewer than the 41 or
      more cells `generate_random_sudoku` then has to empty. */
  lemma StuckSeedsStall()
    ensures SeededAll(EmptyGrid(), StuckSeeds()) == StuckGrid(5)
    ensures BoardSize * BoardSize - |ZeroCells(StuckGrid(5))| == 5
    ensures forall h :: !StuckSolution(h)
  {
    assert StuckSeeds()[..5] == StuckSeeds();
    StuckSeeded(5);
    StuckZeroCells();
    forall h ensures !StuckSolution(h) {
      StuckUnsolvable(h);
    }
  }

  /** A list of distinct values drawn from vals is no longer than vals. */
  lemma {:induction false} DistinctWithin(s: seq<int>, vals: set<int>)
    requires forall k :: 0 <= k < |s| ==> s[k] in vals
    requires forall a, b :: 0 <= a < b < |s| ==> s[a] != s[b]
    ensures |s| <= |vals|
  {
    if s != [] {
      var last := s[|s| - 1];
      DistinctWithin(s[..|s| - 1], vals - {last});
    }
  }

  /** A solution of a board whose cells are all in range is in range. */
  lemma SolutionInRange(g: IntGrid, h: IntGrid)
    requires InRange(g) && KeepsGivens(g, h) && FillsBlanks(g, h)
    ensures InRange(h)
  {
    forall i, j | InBoard((i, j)) ensures 0 <= h[i][j] <= BoardSize {
      if g[i][j] != 0 {
        assert h[i][j] == g[i][j];
      }
    }
  }

  /** `[row[:] for row in solved_board]`: a fresh array with the same contents. */
  method CopyBoard(src: array2<int>) returns (dst: array2<int>)
    requires IsBoard(src)
    ensures fresh(dst) && IsBoard(dst)
    ensures Snapshot(dst) == Snapshot(src)
  {
    dst := new int[BoardSize, BoardSize];
    for i := 0 to BoardSize
      invariant forall a, c :: 0 <= a < i && 0 <= c < BoardSize ==> dst[a, c] == src[a, c]
    {
      for j := 0 to BoardSize
        invariant forall a, c :: 0 <= a < i && 0 <= c < BoardSize ==> dst[a, c] == src[a, c]
        invariant forall c :: 0 <= c < j ==> dst[i, c] == src[i, c]
      {
        dst[i, j] := src[i, j];
      }
    }
    SquareExtensionality(Snapshot(dst), Snapshot(src));
  }

  /** Zeroing the nonzero cell p adds exactly p to the empty cells. */
  lemma ClearGrowsZeros(g: IntGrid, p: Pos)
    requires InBoard(p) && g[p.0][p.1] != 0
    ensures ZeroCells(Put(g, p, 0)) == ZeroCells(g) + {p}
    ensures |ZeroCells(Put(g, p, 0))| == |ZeroCells(g)| + 1
  {
    assert p !in ZeroCells(g);
  }

  /** Every cell of h is the one of g or empty. */
  ghost predicate Thinned(g: IntGrid, h: IntGrid) {
    forall i, j :: InBoard((i, j)) ==> h[i][j] == g[i][j] || h[i][j] == 0
  }

  /** The first k drawn cells are empty in g. */
  ghost predicate Cleared(g: IntGrid, picks: seq<Pos>, k: int)
    requires 0 <= k <= |picks|
  {
    forall a :: 0 <= a < k && InBoard(picks[a]) ==> g[picks[a].0][picks[a].1] == 0
  }

  /** Emptying a cell keeps a thinned board thinned. */
  lemma ClearKeepsThinned(g0: IntGrid, g: IntGrid, p: Pos)
    requires InBoard(p) && Thinned(g0, g)
    ensures Thinned(g0, Put(g, p, 0))
  {
  }

  /** Once the k-th drawn cell is empty, the first k + 1 drawn cells are. */
  lemma ClearedStep(g: IntGrid, picks: seq<Pos>, k: int)
    requires 0 <= k < |picks| && InBoard(picks[k]) && Cleared(g, picks, k)
    requires g[picks[k].0][picks[k].1] == 0
    ensures Cleared(g, picks, k + 1)
  {
  }

  /** Emptying a cell keeps every empty cell empty. */
  lemma ClearKeepsCleared(g: IntGrid, picks: seq<Pos>, k: int, p: Pos)
    requires 0 <= k <= |picks| && InBoard(p) && Cleared(g, picks, k)
    ensures Cleared(Put(g, p, 0), picks, k)
  {
  }

  /** Thinning a conflict-free board in range keeps it so. */
  lemma ThinnedConflictFree(g: IntGrid, h: IntGrid)
    requires ConflictFree(g) && InRange(g) && Thinned(g, h)
    ensures ConflictFree(h) && InRange(h)
  {
    forall i, j, r, c | InBoard((i, j)) && InBoard((r, c)) && (i, j) != (r, c) && SameUnit((i, j), (r, c))
                        && h[i][j] != 0
      ensures h[i][j] != h[r][c]
    {
      assert g[i][j] != g[r][c];
    }
  }

  /** Every cell in which h differs from g is among the first k drawn cells. */
  ghost predicate DrawnOnly(g: IntGrid, h: IntGrid, picks: seq<Pos>, k: int)
    requires 0 <= k <= |picks|
  {
    forall i, j :: InBoard((i, j)) && h[i][j] != g[i][j] ==> (i, j) in picks[..k]
  }

  /** Emptying the k-th drawn cell, or leaving the board as it is, keeps
      every change among the first k + 1 drawn cells. */
  lemma DrawnOnlyStep(g0: IntGrid, g: IntGrid, h: IntGrid, picks: seq<Pos>, k: int)
    requires 0 <= k < |picks| && InBoard(picks[k]) && DrawnOnly(g0, g, picks, k)
    requires h == g || h == Put(g, picks[k], 0)
    ensures DrawnOnly(g0, h, picks, k + 1)
  {
    assert picks[..k + 1] == picks[..k] + [picks[k]];
  }

  /** No board has more than 81 empty cells; the empty cells are the 81
      cells minus the filled ones. */
  lemma ZeroCellsBound(g: IntGrid)
    ensures |ZeroCells(g)| <= BoardSize * BoardSize
    ensures |Cells(BoardSize)| == BoardSize * BoardSize
  {
    var zeros, cells := ZeroCells(g), Cells(BoardSize);
    CellsBound(BoardSize);
    assert zeros <= cells;
    assert cells == zeros + (cells - zeros);
    assert zeros * (cells - zeros) == {};
  }

  /** The cells of the first n rows. */
  ghost function Cells(n: int): set<Pos> {
    set i, j | 0 <= i < n && 0 <= j < BoardSize :: (i, j)
  }

  /** The first m cells of row i. */
  ghost function RowCells(i: int, m: int): set<Pos> {
    set j | 0 <= j < m :: (i, j)
  }

  lemma {:induction false} RowCellsBound(i: int, m: nat)
    ensures |RowCells(i, m)| == m
  {
    if m == 0 {
      assert RowCells(i, m) == {};
    } else {
      RowCellsBound(i, m - 1);
      assert RowCells(i, m) == RowCells(i, m - 1) + {(i, m - 1)};
    }
  }

  lemma {:induction false} CellsBound(n: nat)
    ensures |Cells(n)| == BoardSize * n
  {
    if n == 0 {
      assert Cells(n) == {};
    } else {
      CellsBound(n - 1);
      RowCellsBound(n - 1, BoardSize);
      assert Cells(n) == Cells(n - 1) + RowCells(n - 1, BoardSize);
      assert Cells(n - 1) * RowCells(n - 1, BoardSize) == {};
    }
  }

  /** The removal loop of `generate_random_sudoku`: take the drawn cells in
      turn and zero each one that is not already empty, until `toRemove` cells
      have been zeroed. The Python loop keeps drawing for ever; here the draws are
      the finite list `picks`, and the loop also stops when it runs out.
      `visited` counts the draws taken: only those cells change, each of them
      ends up empty, and all draws are taken when the target is not reached,
      which is bound to happen when fewer than `toRemove` cells are filled. */
  method RemoveCells(puzzle: array2<int>, toRemove: nat, picks: seq<Pos>) returns (removed: nat, ghost visited: nat)
    requires IsBoard(puzzle) && forall k :: 0 <= k < |picks| ==> InBoard(picks[k])
    modifies puzzle
    ensures removed <= toRemove && visited <= |picks|
    ensures Thinned(old(Snapshot(puzzle)), Snapshot(puzzle))
    ensures DrawnOnly(old(Snapshot(puzzle)), Snapshot(puzzle), picks, visited)
    ensures Cleared(Snapshot(puzzle), picks, visited)
    ensures |ZeroCells(Snapshot(puzzle))| == |ZeroCells(old(Snapshot(puzzle)))| + removed
    ensures removed < toRemove ==> visited == |picks|
    ensures BoardSize * BoardSize - |ZeroCells(old(Snapshot(puzzle)))| < toRemove ==> removed < toRemove
  {
    ghost var g0 := Snapshot(puzzle);
    removed := 0;
    var k := 0;
    while removed < toRemove && k < |picks|
      invariant 0 <= k <= |picks| && removed <= toRemove
      invariant Thinned(g0, Snapshot(puzzle))
      invariant DrawnOnly(g0, Snapshot(puzzle), picks, k)
      invariant |ZeroCells(Snapshot(puzzle))| == |ZeroCells(g0)| + removed
      invariant Cleared(Snapshot(puzzle), picks, k)
      decreases |picks| - k
    {
      var (row, col) := picks[k];
      ghost var g := Snapshot(puzzle);
      if puzzle[row, col] != 0 {
        Place(puzzle, row, col, 0);
        ClearGrowsZeros(g, (row, col));
        ClearKeepsThinned(g0, g, (row, col));
        ClearKeepsCleared(g, picks, k, (row, col));
        removed := removed + 1;
      }
      DrawnOnlyStep(g0, g, Snapshot(puzzle), picks, k);
      ClearedStep(Snapshot(puzzle), picks, k);
      k := k + 1;
    }
    visited := k;
    ZeroCellsBound(Snapshot(puzzle));
  }

  /** `generate_random_sudoku`: a solved board from the seeds, a copy of
      it, `cells_to_keep` drawn from the difficulty's range, and the removal
      loop. `solved` is the board `generate_solved_board` returned: full, or
      the seeded board when the solver failed. The puzzle differs from it
      only in the `visited` drawn cells, each now empty, and has exactly
      `removed` more empty cells; `removed` is 81 - `keep` unless the draws
      ran out, and it falls short whatever the draws when `solved` has
      fewer filled cells than that. */
  method GenerateRandomSudoku(difficulty: string, seeds: seq<Seed>, keep: int, picks: seq<Pos>)
    returns (puzzle: array2<int>, ghost solved: IntGrid, ghost removed: nat, ghost visited: nat)
    requires |seeds| == 5 && forall k :: 0 <= k < |seeds| ==> ValidSeed(seeds[k])
    requires KeepRange(difficulty).0 <= keep <= KeepRange(difficulty).1
    requires forall k :: 0 <= k < |picks| ==> InBoard(picks[k])
    ensures fresh(puzzle) && IsBoard(puzzle)
    ensures ConflictFree(solved) && InRange(solved)
    ensures KeepsGivens(SeededAll(EmptyGrid(), seeds), solved)
    ensures ZeroCells(solved) == {} || solved == SeededAll(EmptyGrid(), seeds)
    ensures Thinned(solved, Snapshot(puzzle))
    ensures ConflictFree(Snapshot(puzzle)) && InRange(Snapshot(puzzle))
    ensures visited <= |picks|
    ensures DrawnOnly(solved, Snapshot(puzzle), picks, visited)
    ensures Cleared(Snapshot(puzzle), picks, visited)
    ensures |ZeroCells(Snapshot(puzzle))| == |ZeroCells(solved)| + removed
    ensures removed <= BoardSize * BoardSize - keep
    ensures removed < BoardSize * BoardSize - keep ==> visited == |picks|
    ensures BoardSize * BoardSize - |ZeroCells(solved)| < BoardSize * BoardSize - keep ==>
              removed < BoardSize * BoardSize - keep
  {
    var solvedBoard := GenerateSolvedBoard(seeds);
    puzzle := CopyBoard(solvedBoard);
    solved := Snapshot(solvedBoard);
    var cellsToKeep := keep;
    KeepRangeOrdered(difficulty, cellsToKeep);
    var cellsToRemove := 81 - cellsToKeep;
    removed, visited := RemoveCells(puzzle, cellsToRemove, picks);
    ThinnedConflictFree(solved, Snapshot(puzzle));
  }
}

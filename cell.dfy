/** One cell of the quantum sudoku board (class `SudokuCell`): either fixed
    to a digit or holding a candidate set with uniform weights. Weights are
    exact rationals 1/n rather than floats. */
module Cell {
  import opened Common

  /** The value of a cell's two fields: `fixed_value` and `possibilities`. */
  datatype CellState = CellState(fixedValue: Option<int>, possibilities: map<int, real>)

  /** `is_collapsed`: fixed, or down to a single possibility. */
  predicate IsCollapsed(c: CellState)
    ensures IsCollapsed(c) <==>
              c.fixedValue.Some? || exists k :: k in c.possibilities && c.possibilities.Keys == {k}
  {
    SingleKey(c.possibilities);
    c.fixedValue.Some? || |c.possibilities| == 1
  }

  /** A map has size 1 exactly when its key set is a singleton. */
  lemma SingleKey(m: map<int, real>)
    ensures |m| == 1 <==> exists k :: k in m && m.Keys == {k}
  {
    if |m| == 1 {
      NonEmptyHasElement(m.Keys);
      var k :| k in m;
      SingletonIs(m.Keys, k);
    }
  }

  /** Every weight of m is 1/|m|. */
  predicate IsUniform(m: map<int, real>) {
    forall k :: k in m ==> m[k] * (|m| as real) == 1.0
  }

  /** The key set `keys` with weight 1/|keys| on each key. */
  function Uniform(keys: set<int>): (m: map<int, real>)
    ensures m.Keys == keys
    ensures IsUniform(m)
  {
    map k | k in keys :: 1.0 / (|keys| as real)
  }

  /** The state `collapse(n)` leaves: fixed to n, with n as its only
      possibility, of weight 1. */
  function Collapsed(n: int): (c: CellState)
    ensures c.fixedValue == Some(n)
    ensures c.possibilities.Keys == {n} && IsUniform(c.possibilities)
  {
    CellState(Some(n), map[n := 1.0])
  }

  /** How `is_collapsed` answers on the states the cell operations produce:
      a collapsed cell is collapsed; a multi-value update is collapsed
      exactly when it names one distinct digit; after a removal, a cell left
      with one possibility is fixed to it. */
  lemma IsCollapsedCases(n: int, candidates: seq<int>, c: CellState, x: int)
    requires candidates != []
    ensures IsCollapsed(Collapsed(n))
    ensures IsCollapsed(WithCandidates(candidates)) <==> |set y | y in candidates| == 1
    ensures x in c.possibilities && |c.possibilities| == 2 ==>
              IsCollapsed(Removed(c, x)) && Removed(c, x).fixedValue.Some?
              && Removed(c, x).possibilities.Keys == {Removed(c, x).fixedValue.value}
  {
    if x in c.possibilities && |c.possibilities| == 2 {
      var rest := c.possibilities.Keys - {x};
      assert |rest| == 1;
      assert |Removed(c, x).possibilities| == 1;
      var v := Removed(c, x).fixedValue.value;
      SingletonIs(Removed(c, x).possibilities.Keys, v);
    }
  }

  /** The state `update_possibilities(candidates)` leaves when it does not raise:
      the weight is 1/len(candidates), duplicates counted. */
  function WithCandidates(candidates: seq<int>): (c: CellState)
    ensures c.fixedValue == None
    ensures c.possibilities.Keys == set x | x in candidates
    ensures forall k :: k in c.possibilities ==> c.possibilities[k] * (|candidates| as real) == 1.0
  {
    CellState(None, map x | x in candidates :: 1.0 / (|candidates| as real))
  }

  /** The state `remove_candidate(x)` leaves. */
  ghost function Removed(c: CellState, x: int): (r: CellState)
    ensures r.possibilities.Keys == c.possibilities.Keys - {x}
    ensures x !in c.possibilities ==> r == c
    ensures x in c.possibilities && |r.possibilities| == 1 ==>
              r.fixedValue.Some? && r.possibilities == map[r.fixedValue.value := 1.0]
    ensures x in c.possibilities && |r.possibilities| != 1 ==>
              r.fixedValue == c.fixedValue && IsUniform(r.possibilities)
  {
    if x !in c.possibilities then c
    else
      var rest := c.possibilities.Keys - {x};
      if |rest| == 1 then
        NonEmptyHasElement(rest);
        var k :| k in rest;
        SingletonIs(rest, k);
        Collapsed(k)
      else
        CellState(c.fixedValue, Uniform(rest))
  }

  /** A set of one element that contains k is {k}. */
  lemma SingletonIs(s: set<int>, k: int)
    requires |s| == 1 && k in s
    ensures s == {k}
  {
    var rest := s - {k};
    assert |rest| == 0;
  }

  lemma NonEmptyHasElement(s: set<int>)
    requires |s| > 0
    ensures exists k :: k in s
  {
    if forall k :: k !in s {
      assert false;
    }
  }

  /** Removing each of xs in turn, first to last. */
  ghost function RemovedAll(c: CellState, xs: seq<int>): (r: CellState)
    ensures r.possibilities.Keys == c.possibilities.Keys - set x | x in xs
    decreases |xs|
  {
    if xs == [] then c
    else
      var init := xs[..|xs| - 1];
      assert (set x | x in xs) == (set x | x in init) + {xs[|xs| - 1]} by {
        assert xs == init + [xs[|xs| - 1]];
      }
      Removed(RemovedAll(c, init), xs[|xs| - 1])
  }

  /** The mutable cell object. */
  class SudokuCell {
    var fixedValue: Option<int>
    var possibilities: map<int, real>

    /** A new cell has the given fixed value and no possibilities yet. */
    constructor (fixed: Option<int>)
      ensures Value() == CellState(fixed, map[])
    {
      fixedValue := fixed;
      possibilities := map[];
    }

    function Value(): CellState
      reads this
    {
      CellState(fixedValue, possibilities)
    }

    /** `collapse`: fixed to `number`, which becomes the only possibility. */
    method Collapse(number: int)
      modifies this
      ensures Value() == Collapsed(number)
    {
      fixedValue := Some(number);
      possibilities := map[number := 1.0];
    }

    /** `update_possibilities`: raises on an empty list and changes nothing;
        otherwise clears the fixed value and spreads equal weight over the list. */
    method UpdatePossibilities(candidates: seq<int>) returns (res: Outcome)
      modifies this
      ensures candidates == [] ==> res == Fail(EmptyCandidates) && Value() == old(Value())
      ensures candidates != [] ==> res == Pass && Value() == WithCandidates(candidates)
    {
      if candidates == [] {
        return Fail(EmptyCandidates);
      }
      var probability := 1.0 / (|candidates| as real);
      fixedValue := None;
      possibilities := map num | num in candidates :: probability;
      res := Pass;
    }

    /** `remove_candidate`: drops `candidate` if present, collapsing the cell
        when one possibility remains and re-normalising otherwise. */
    method RemoveCandidate(candidate: int)
      modifies this
      ensures Value() == Removed(old(Value()), candidate)
    {
      if candidate in possibilities {
        possibilities := possibilities - {candidate};
        if |possibilities| == 1 {
          NonEmptyHasElement(possibilities.Keys);
          var remaining :| remaining in possibilities;
          SingletonIs(possibilities.Keys, remaining);
          Collapse(remaining);
        } else {
          var n := |possibilities|;
          possibilities := map num | num in possibilities :: 1.0 / (n as real);
        }
      }
    }
  }
}

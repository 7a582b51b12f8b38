/** The validation of an `/assign` request body (`CellAssignment`): the
    field constraints and the digit validator, without the HTTP framework. */
module Request {
  import opened Common
  import opened Cell
  import opened Grid
  import opened BoardSpec

  /** The complaints the validation can raise. */
  datatype FieldError =
    | RowOutOfRange(row: int)
    | ColumnOutOfRange(col: int)
    | NoCandidatesGiven
    | InvalidDigit(digit: int)

  /** `validate_candidates`: the first candidate outside 1..9, in list order. */
  function FirstInvalidDigit(candidates: seq<int>): (r: Option<int>)
    ensures r.None? <==> forall k :: 0 <= k < |candidates| ==> 1 <= candidates[k] <= BoardSize
    ensures r.Some? ==> exists k :: 0 <= k < |candidates| && candidates[k] == r.value
                                    && !(1 <= r.value <= BoardSize)
                                    && forall a :: 0 <= a < k ==> 1 <= candidates[a] <= BoardSize
  {
    if candidates == [] then None
    else if candidates[0] < 1 || candidates[0] > BoardSize then Some(candidates[0])
    else
      var rest := FirstInvalidDigit(candidates[1..]);
      if rest.Some? then
        var k :| 0 <= k < |candidates[1..]| && candidates[1..][k] == rest.value
                 && !(1 <= rest.value <= BoardSize)
                 && forall a :: 0 <= a < k ==> 1 <= candidates[1..][a] <= BoardSize;
        assert candidates[k + 1] == rest.value;
        rest
      else rest
  }

  /** Every complaint about a request, field by field: `row` and `col` must
      lie in 0..8, `candidates` must be non-empty, and only then is each
      candidate checked to be a digit 1..9. */
  function Validate(row: int, col: int, candidates: seq<int>): (errors: seq<FieldError>)
    ensures |errors| <= 3
    ensures RowOutOfRange(row) in errors <==> !(0 <= row < BoardSize)
    ensures ColumnOutOfRange(col) in errors <==> !(0 <= col < BoardSize)
    ensures NoCandidatesGiven in errors <==> candidates == []
  {
    (if 0 <= row < BoardSize then [] else [RowOutOfRange(row)])
    + (if 0 <= col < BoardSize then [] else [ColumnOutOfRange(col)])
    + (if candidates == [] then [NoCandidatesGiven]
       else match FirstInvalidDigit(candidates)
            case None => []
            case Some(d) => [InvalidDigit(d)])
  }

  /** A request is accepted exactly when the cell is on the board and the
      candidate list is a non-empty list of digits 1..9. */
  lemma AcceptedIff(row: int, col: int, candidates: seq<int>)
    ensures Validate(row, col, candidates) == [] <==>
              && 0 <= row < BoardSize && 0 <= col < BoardSize
              && |candidates| >= 1
              && forall k :: 0 <= k < |candidates| ==> 1 <= candidates[k] <= BoardSize
  {
    var errors := Validate(row, col, candidates);
    if candidates != [] && FirstInvalidDigit(candidates).Some? {
      assert InvalidDigit(FirstInvalidDigit(candidates).value) in errors;
    }
  }

  /** An accepted request reaches `user_assign` with a cell on the board and
      a non-empty list, so `user_assign` rejects it exactly when the cell is
      fixed or some candidate is not among the cell's possibilities. */
  lemma AcceptedRequestChecks(g: Grid, row: int, col: int, candidates: seq<int>)
    requires Validate(row, col, candidates) == []
    ensures InBoard((row, col))
    ensures AssignCheck(g, row, col, candidates).Fail? <==>
              g[row][col].fixedValue.Some? || exists x :: x in candidates && x !in g[row][col].possibilities
  {
    AcceptedIff(row, col, candidates);
  }
}

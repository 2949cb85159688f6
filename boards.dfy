/**
 * The board API that `Solver`, `SampleCommand` and `RowCommand` call:
 * `withValue(Position, Value)`, `getUnsolvedPositions`, `getPossibleValues`
 * and `isSolved`, over an immutable assignment of values to positions.
 * `isValid` belongs to the board class, which is not modelled: the solver
 * takes it as a parameter.
 */
module Boards {
  import opened Util
  import opened Grid

  /** `Value`: the nine symbols, named by their numeral. */
  type Value = v: int | 1 <= v <= 9 witness 1

  /** `Value.values()`, in declaration (ascending) order. */
  const AllValues: seq<Value> := [1, 2, 3, 4, 5, 6, 7, 8, 9]

  /** `Value.values()[k]`, or None where the array index is out of bounds. */
  function ValueAt(k: int): (r: Option<Value>)
    ensures r.Some? <==> 0 <= k < 9
    ensures r.Some? ==> r.value == AllValues[k]
  {
    if 0 <= k < 9 then Some(k + 1) else None
  }

  /** An immutable board: the positions assigned so far and their values. */
  datatype Board = Board(assignment: map<Position, Value>)

  datatype BoardError = ValueAlreadySet

  /** `SudokuBoard.empty()`. */
  function Empty(): Board {
    Board(map[])
  }

  /** `withValue`: fails only when the position already holds a different value. */
  function WithValue(b: Board, p: Position, v: Value): (r: Result<Board, BoardError>)
    ensures r.Err? <==> p in b.assignment && b.assignment[p] != v
    ensures r.Ok? ==> p in r.value.assignment && r.value.assignment[p] == v
    ensures r.Ok? ==> forall q :: q != p ==> (q in r.value.assignment <==> q in b.assignment)
    ensures r.Ok? ==> forall q :: q != p && q in b.assignment ==> r.value.assignment[q] == b.assignment[q]
  {
    if p in b.assignment && b.assignment[p] != v then Err(ValueAlreadySet)
    else Ok(Board(b.assignment[p := v]))
  }

  /** t is reachable from s by adding assignments: nothing of s is changed or removed. */
  predicate Extends(t: Board, s: Board) {
    forall p :: p in s.assignment ==> p in t.assignment && t.assignment[p] == s.assignment[p]
  }

  /** The values assigned to the neighbours of `p`. */
  function NeighbourValues(b: Board, p: Position): set<Value> {
    set q | q in Neighbours(p) && q in b.assignment :: b.assignment[q]
  }

  /** `getPossibleValues(p)`: the values 1..9 not held by a neighbour, ascending. */
  function Candidates(b: Board, p: Position): seq<Value> {
    Remaining(NeighbourValues(b, p), 1)
  }

  /** The values `from`..9 that are not excluded, ascending. */
  function Remaining(excluded: set<Value>, from: int): seq<Value>
    requires 1 <= from <= 10
    decreases 10 - from
  {
    if from == 10 then []
    else if from in excluded then Remaining(excluded, from + 1)
    else [from] + Remaining(excluded, from + 1)
  }

  /** The positions without a value. */
  function UnsolvedSet(b: Board): set<Position> {
    AllPositions() - b.assignment.Keys
  }

  /** `getUnsolvedPositions()` in its iteration order, taken to be row-major. */
  function Unsolved(b: Board): seq<Position> {
    UnsolvedFrom(b, 0)
  }

  /** The unassigned positions with row-major index k or more. */
  function UnsolvedFrom(b: Board, k: int): seq<Position>
    requires 0 <= k <= 81
    decreases 81 - k
  {
    if k == 81 then []
    else
      var p := Position(k / 9, k % 9);
      (if p in b.assignment then [] else [p]) + UnsolvedFrom(b, k + 1)
  }

  /** `isSolved()`: no position is left without a value. */
  predicate IsSolved(b: Board) {
    UnsolvedSet(b) == {}
  }

  // ---------------------------------------------------------------------
  // The Sudoku rule: no value repeated among peers, and every empty cell
  // keeps a candidate. The solver does not depend on this definition; it
  // is one `isValid` that meets the solver's completeness hypotheses.
  // ---------------------------------------------------------------------

  /** No assigned value is repeated at a neighbour. */
  predicate ConflictFree(b: Board) {
    forall p :: p in b.assignment ==> b.assignment[p] !in NeighbourValues(b, p)
  }

  /** Conflict free, and every unassigned position keeps at least one candidate. */
  predicate ValidSpec(b: Board) {
    ConflictFree(b) && forall p :: p in UnsolvedSet(b) ==> |Candidates(b, p)| > 0
  }

  // ---------------------------------------------------------------------
  // Lemmas
  // ---------------------------------------------------------------------

  /** The candidates are exactly the values no neighbour holds, strictly ascending, at most 9. */
  lemma {:induction false} RemainingSpec(excluded: set<Value>, from: int)
    requires 1 <= from <= 10
    ensures forall v :: v in Remaining(excluded, from) <==> from <= v <= 9 && v !in excluded
    ensures forall i, j :: 0 <= i < j < |Remaining(excluded, from)| ==>
              Remaining(excluded, from)[i] < Remaining(excluded, from)[j]
    ensures forall i :: 0 <= i < |Remaining(excluded, from)| ==> from <= Remaining(excluded, from)[i]
    ensures |Remaining(excluded, from)| <= 10 - from
    ensures excluded == {} ==> |Remaining(excluded, from)| == 10 - from
    decreases 10 - from
  {
    if from < 10 {
      RemainingSpec(excluded, from + 1);
    }
  }

  lemma CandidatesSpec(b: Board, p: Position)
    ensures forall v: Value :: v in Candidates(b, p) <==> v !in NeighbourValues(b, p)
    ensures forall i, j :: 0 <= i < j < |Candidates(b, p)| ==> Candidates(b, p)[i] < Candidates(b, p)[j]
    ensures |Candidates(b, p)| <= 9
    ensures NeighbourValues(b, p) == {} ==> |Candidates(b, p)| == 9
  {
    var excluded := NeighbourValues(b, p);
    RemainingSpec(excluded, 1);
    assert Candidates(b, p) == Remaining(excluded, 1);
  }

  /** One excluded value among from..9 leaves at most 9 - from of them. */
  lemma {:induction false} RemainingMissing(excluded: set<Value>, from: int, v: Value)
    requires 1 <= from <= v && v in excluded
    ensures |Remaining(excluded, from)| <= 9 - from
    decreases 10 - from
  {
    if from < v {
      RemainingMissing(excluded, from + 1, v);
    } else {
      RemainingSpec(excluded, from + 1);
    }
  }

  /** A position with an assigned neighbour has fewer than nine candidates. */
  lemma AssignedNeighbourNarrows(b: Board, p: Position, q: Position)
    requires q in Neighbours(p) && q in b.assignment
    ensures |Candidates(b, p)| < 9
  {
    assert b.assignment[q] in NeighbourValues(b, p);
    RemainingMissing(NeighbourValues(b, p), 1, b.assignment[q]);
  }

  /** On the empty board every position has all nine candidates, in `Value` order. */
  lemma EmptyCandidates(p: Position)
    ensures NeighbourValues(Empty(), p) == {}
    ensures Candidates(Empty(), p) == AllValues
  {
    assert NeighbourValues(Empty(), p) == {};
  }

  /** Adding assignments can only add neighbour values. */
  lemma NeighbourValuesGrow(s: Board, t: Board, p: Position)
    requires Extends(t, s)
    ensures NeighbourValues(s, p) <= NeighbourValues(t, p)
  {
    forall v | v in NeighbourValues(s, p)
      ensures v in NeighbourValues(t, p)
    {
      var q :| q in Neighbours(p) && q in s.assignment && s.assignment[q] == v;
      assert t.assignment[q] == v;
    }
  }

  /** The iteration order holds exactly the unassigned positions from index k on. */
  lemma {:induction false} UnsolvedFromSpec(b: Board, k: int)
    requires 0 <= k <= 81
    ensures forall p :: p in UnsolvedFrom(b, k) <==> p !in b.assignment && k <= p.row * 9 + p.col
    decreases 81 - k
  {
    if k < 81 {
      UnsolvedFromSpec(b, k + 1);
      forall p
        ensures p == Position(k / 9, k % 9) <==> k == p.row * 9 + p.col
      {
      }
    }
  }

  /** `getUnsolvedPositions()` lists exactly the unassigned positions. */
  lemma UnsolvedSpec(b: Board)
    ensures forall p :: p in Unsolved(b) <==> p in UnsolvedSet(b)
    ensures IsSolved(b) <==> Unsolved(b) == []
  {
    UnsolvedFromSpec(b, 0);
    forall p
      ensures p in UnsolvedSet(b) <==> p !in b.assignment
    {
      InAllPositions(p);
    }
    if Unsolved(b) != [] {
      assert Unsolved(b)[0] in UnsolvedSet(b);
    }
  }

  /** Re-setting the value a position already has is a no-op. */
  lemma WithValueIdempotent(b: Board, p: Position, v: Value)
    requires WithValue(b, p, v).Ok?
    ensures WithValue(WithValue(b, p, v).value, p, v) == WithValue(b, p, v)
  {
    var next := WithValue(b, p, v).value;
    assert next.assignment[p := v] == next.assignment;
  }

  /** Setting a different value on an assigned position fails. */
  lemma WithValueConflict(b: Board, p: Position, v1: Value, v2: Value)
    requires v1 != v2 && WithValue(b, p, v1).Ok?
    ensures WithValue(WithValue(b, p, v1).value, p, v2) == Err(ValueAlreadySet)
  {
  }

  /** A successful `withValue` keeps every earlier assignment (one lineage only grows). */
  lemma WithValueExtends(b: Board, p: Position, v: Value)
    requires WithValue(b, p, v).Ok?
    ensures Extends(WithValue(b, p, v).value, b)
  {
  }

  /** Assigning an unsolved position always succeeds and removes exactly that position from the unsolved ones. */
  lemma WithValueShrinks(b: Board, p: Position, v: Value)
    requires p in UnsolvedSet(b)
    ensures WithValue(b, p, v).Ok?
    ensures UnsolvedSet(WithValue(b, p, v).value) == UnsolvedSet(b) - {p}
    ensures |UnsolvedSet(WithValue(b, p, v).value)| == |UnsolvedSet(b)| - 1
  {
    var next := WithValue(b, p, v).value;
    assert UnsolvedSet(next) == UnsolvedSet(b) - {p};
  }

  /** Extension is transitive. */
  lemma ExtendsTransitive(r: Board, s: Board, t: Board)
    requires Extends(t, s) && Extends(s, r)
    ensures Extends(t, r)
  {
  }

  /** A solved board that extends another solved board is that board. */
  lemma SolvedExtensionIsSame(s: Board, t: Board)
    requires IsSolved(s) && Extends(t, s)
    ensures t == s
  {
    forall p | p in t.assignment
      ensures p in s.assignment
    {
      InAllPositions(p);
      assert p !in UnsolvedSet(s);
    }
    assert t.assignment == s.assignment;
  }

  /**
   * A value that a solved, conflict-free extension puts at an unsolved
   * position is one of the position's candidates now.
   */
  lemma ExtensionValueIsCandidate(b: Board, t: Board, p: Position)
    requires Extends(t, b) && ConflictFree(t) && p in t.assignment
    ensures t.assignment[p] in Candidates(b, p)
  {
    NeighbourValuesGrow(b, t, p);
    CandidatesSpec(b, p);
  }

  /** The Sudoku rule is inherited by every board an extension of it comes from. */
  lemma ValidSpecDownwardClosed(s: Board, t: Board)
    requires Extends(t, s) && ValidSpec(t)
    ensures ValidSpec(s)
  {
    forall p | p in s.assignment
      ensures s.assignment[p] !in NeighbourValues(s, p)
    {
      NeighbourValuesGrow(s, t, p);
    }
    forall p | p in UnsolvedSet(s)
      ensures |Candidates(s, p)| > 0
    {
      NeighbourValuesGrow(s, t, p);
      CandidatesSpec(s, p);
      CandidatesSpec(t, p);
      if p in t.assignment {
        assert t.assignment[p] in Candidates(s, p);
      } else {
        assert p in UnsolvedSet(t);
        assert Candidates(t, p)[0] in Candidates(s, p);
      }
    }
  }

  /** Two positions in one row both holding 5 make a board invalid. */
  lemma SameRowFivesInvalid(b: Board)
    requires Position(0, 0) in b.assignment && Position(0, 4) in b.assignment
    requires b.assignment[Position(0, 0)] == 5 && b.assignment[Position(0, 4)] == 5
    ensures !ValidSpec(b)
  {
    InNeighbours(Position(0, 0), Position(0, 4));
    assert 5 in NeighbourValues(b, Position(0, 0));
  }
}

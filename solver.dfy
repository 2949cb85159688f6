/**
 * `Solver.findSolutions`: prune invalid boards, accept solved ones, follow a
 * naked single without branching, and otherwise branch on the position with
 * the fewest candidates and take the union of the branches' solutions.
 *
 * The board class that `findSolutions` calls is not modelled: its `isValid`
 * is the parameter `isValid` throughout, and the solver's guarantees are
 * stated relative to it.
 */
module Solver {
  import opened Util
  import opened Grid
  import opened Boards

  /** What the scan over the unsolved positions decides. */
  datatype Choice =
    | Forced(pos: Position, value: Value)        // a position with exactly one candidate
    | Branch(pos: Position, values: seq<Value>)  // the branch position and its candidates
    | NoBranch                                   // no position beat 9 candidates: `fewestPossiblePosition` stays null

  /** How a search ends without a solution set. */
  datatype Failure =
    | NoBranchPosition  // `withValue(null, v)` is called on the board class, which is not modelled
    | AlreadySet        // `ValueAlreadySetException` escaping from the naked-single step

  datatype Outcome = Found(solutions: set<Board>) | Failed(failure: Failure)

  /**
   * The candidate lists the loop meets: `cands[j]` is what
   * `getPossibleValues` returns for the j-th unsolved position.
   */
  function CandidatesOf(b: Board, order: seq<Position>): (cands: seq<seq<Value>>)
    ensures |cands| == |order|
    ensures forall j :: 0 <= j < |order| ==> cands[j] == Candidates(b, order[j])
  {
    seq(|order|, j requires 0 <= j < |order| => Candidates(b, order[j]))
  }

  /** Position k is the first one with exactly one candidate. */
  ghost predicate FirstSingle(cands: seq<seq<Value>>, k: int) {
    0 <= k < |cands| && |cands[k]| == 1 &&
    forall j :: 0 <= j < k ==> |cands[j]| != 1
  }

  /**
   * Among the first i positions, k has fewer than 9 candidates, strictly
   * fewer than every earlier one and no more than every later one.
   */
  ghost predicate LeaderUpTo(cands: seq<seq<Value>>, i: int, k: int)
    requires i <= |cands|
  {
    0 <= k < i && |cands[k]| < 9 &&
    (forall j :: 0 <= j < k ==> |cands[j]| > |cands[k]|) &&
    (forall j :: k < j < i ==> |cands[j]| >= |cands[k]|)
  }

  /** Position k is where the source branches: the leader over all positions. */
  ghost predicate FewestAt(cands: seq<seq<Value>>, k: int) {
    LeaderUpTo(cands, |cands|, k)
  }

  /** What the loop variables mean after i rounds without an early return. */
  ghost predicate ScanState(order: seq<Position>, cands: seq<seq<Value>>, i: int, fewest: seq<Value>, at: Option<Position>)
    requires 0 <= i <= |cands| && |cands| == |order|
  {
    (forall j :: 0 <= j < i ==> |cands[j]| != 1) &&
    (at.None? ==> fewest == AllValues && forall j :: 0 <= j < i ==> |cands[j]| >= 9) &&
    (at.Some? ==> exists k :: LeaderUpTo(cands, i, k) && order[k] == at.value && fewest == cands[k])
  }

  /** What the source promises about the decision of the loop over positions i.. . */
  ghost predicate ScanOutcome(order: seq<Position>, cands: seq<seq<Value>>, i: int, c: Choice)
    requires 0 <= i <= |cands| && |cands| == |order|
  {
    && (c.Forced? <==> exists k :: i <= k < |cands| && |cands[k]| == 1)
    && (c.Forced? ==> exists k :: FirstSingle(cands, k) && c == Forced(order[k], cands[k][0]))
    && (c.Branch? ==> exists k :: FewestAt(cands, k) && c == Branch(order[k], cands[k]))
    && (c.NoBranch? ==> forall j :: 0 <= j < |cands| ==> |cands[j]| >= 9)
  }

  /**
   * The `for` loop of `findSolutions` from index i on, with `fewest` and `at`
   * standing for `fewestPossibles` and `fewestPossiblePosition`.
   */
  function ScanFrom(order: seq<Position>, cands: seq<seq<Value>>, i: int, fewest: seq<Value>, at: Option<Position>): (c: Choice)
    requires 0 <= i <= |order| && |cands| == |order|
    requires at.Some? ==> at.value in order
    ensures c.Forced? ==> c.pos in order
    ensures c.Branch? ==> c.pos in order
    decreases |order| - i
  {
    if i == |order| then
      if at.None? then NoBranch else Branch(at.value, fewest)
    else if |cands[i]| == 1 then Forced(order[i], cands[i][0])
    else if |cands[i]| < |fewest| then ScanFrom(order, cands, i + 1, cands[i], Some(order[i]))
    else ScanFrom(order, cands, i + 1, fewest, at)
  }

  /** The whole loop, started from `EnumSet.allOf(Value.class)` and `null`. */
  function Scan(b: Board): (c: Choice)
    ensures c.Forced? ==> c.pos in UnsolvedSet(b)
    ensures c.Branch? ==> c.pos in UnsolvedSet(b)
  {
    UnsolvedSpec(b);
    ScanFrom(Unsolved(b), CandidatesOf(b, Unsolved(b)), 0, AllValues, None)
  }

  /** Collecting two branch results into one set; an exception in either escapes. */
  function Combine(x: Outcome, y: Outcome): Outcome {
    if x.Failed? then x else if y.Failed? then y else Found(x.solutions + y.solutions)
  }

  /** The first n outcomes collected into one; an exception in any of them escapes. */
  function UnionUpTo(outs: seq<Outcome>, n: int): Outcome
    requires 0 <= n <= |outs|
  {
    if n == 0 then Found({}) else Combine(UnionUpTo(outs, n - 1), outs[n - 1])
  }

  /** `findSolutions` as a recursive function of the board. */
  function Solve(isValid: Board -> bool, b: Board): Outcome
    decreases |UnsolvedSet(b)|, 2
  {
    if !isValid(b) then Found({})
    else if IsSolved(b) then Found({b})
    else
      match Scan(b) {
        case Forced(p, v) =>
          match WithValue(b, p, v) {
            case Ok(next) => WithValueShrinks(b, p, v); Solve(isValid, next)
            case Err(_) => Failed(AlreadySet)
          }
        case Branch(p, vs) => UnionUpTo(BranchResults(isValid, b, p, vs), |vs|)
        case NoBranch => Failed(NoBranchPosition)
      }
  }

  /** The outcomes of the branches, one per candidate value, as the parallel stream maps them. */
  function BranchResults(isValid: Board -> bool, b: Board, p: Position, vs: seq<Value>): (outs: seq<Outcome>)
    requires p in UnsolvedSet(b)
    ensures |outs| == |vs|
    decreases |UnsolvedSet(b)|, 1
  {
    seq(|vs|, j requires 0 <= j < |vs| => BranchResult(isValid, b, p, vs[j]))
  }

  /**
   * One branch: solve with p set to v; a `ValueAlreadySetException` contributes
   * nothing. The `try` also wraps the nested `findSolutions`, whose own
   * `ValueAlreadySetException` is not caught here: `SolveNeverAlreadySet`
   * shows it is never raised, so the two readings agree on every board.
   */
  function BranchResult(isValid: Board -> bool, b: Board, p: Position, v: Value): Outcome
    requires p in UnsolvedSet(b)
    decreases |UnsolvedSet(b)|, 0
  {
    match WithValue(b, p, v) {
      case Ok(next) => WithValueShrinks(b, p, v); Solve(isValid, next)
      case Err(_) => Found({})
    }
  }

  /**
   * `findSolutions` as the source writes it: the scan loop with its early
   * return, then a sequential union over the candidates of the branch position.
   */
  method FindSolutions(isValid: Board -> bool, board: Board) returns (r: Outcome)
    ensures r == Solve(isValid, board)
    decreases |UnsolvedSet(board)|, 2
  {
    if !isValid(board) {
      return Found({});
    }
    if IsSolved(board) {
      return Found({board});
    }
    UnsolvedSpec(board);
    var positions := Unsolved(board);
    var fewestPossibles := AllValues;
    var fewestPossiblePosition: Option<Position> := None;
    ghost var cands := CandidatesOf(board, positions);
    for i := 0 to |positions|
      invariant fewestPossiblePosition.Some? ==> fewestPossiblePosition.value in positions
      invariant ScanFrom(positions, cands, i, fewestPossibles, fewestPossiblePosition) == Scan(board)
    {
      var position := positions[i];
      var possibleValues := Candidates(board, position);
      assert possibleValues == cands[i];
      if |possibleValues| == 1 {
        WithValueShrinks(board, position, possibleValues[0]);
        var next := WithValue(board, position, possibleValues[0]).value;
        r := FindSolutions(isValid, next);
        return;
      } else if |possibleValues| < |fewestPossibles| {
        fewestPossibles := possibleValues;
        fewestPossiblePosition := Some(position);
      }
    }
    if fewestPossiblePosition.None? {
      return Failed(NoBranchPosition);
    }
    r := SolveBranches(isValid, board, fewestPossiblePosition.value, fewestPossibles);
  }

  /**
   * The brute-force stream of `findSolutions`: solve each branch with
   * `position` set to one of `values`, and collect the solutions.
   */
  method SolveBranches(isValid: Board -> bool, board: Board, position: Position, values: seq<Value>) returns (r: Outcome)
    requires position in UnsolvedSet(board)
    ensures r == UnionUpTo(BranchResults(isValid, board, position, values), |values|)
    decreases |UnsolvedSet(board)|, 1
  {
    ghost var outs := BranchResults(isValid, board, position, values);
    r := Found({});
    for k := 0 to |values|
      invariant r == UnionUpTo(outs, k)
    {
      var branch: Outcome;
      assert outs[k] == BranchResult(isValid, board, position, values[k]);
      match WithValue(board, position, values[k]) {
        case Ok(next) =>
          WithValueShrinks(board, position, values[k]);
          branch := FindSolutions(isValid, next);
          assert branch == BranchResult(isValid, board, position, values[k]);
        case Err(_) =>
          branch := Found({});
      }
      r := Combine(r, branch);
    }
  }

  // ---------------------------------------------------------------------
  // The scan
  // ---------------------------------------------------------------------

  /** A position with fewer candidates than the best so far becomes the new leader. */
  lemma ScanStateNewLeader(order: seq<Position>, cands: seq<seq<Value>>, i: int, fewest: seq<Value>, at: Option<Position>)
    requires 0 <= i < |cands| && |cands| == |order| && ScanState(order, cands, i, fewest, at)
    requires |cands[i]| != 1 && |cands[i]| < |fewest|
    ensures ScanState(order, cands, i + 1, cands[i], Some(order[i]))
  {
    var n := |cands[i]|;
    if at.Some? {
      var k :| LeaderUpTo(cands, i, k) && order[k] == at.value && fewest == cands[k];
      forall j | 0 <= j < i
        ensures |cands[j]| > n
      {
        if j < k {
          assert |cands[j]| > |cands[k]|;
        } else if j > k {
          assert |cands[j]| >= |cands[k]|;
        }
      }
    } else {
      assert |fewest| == 9;
    }
    assert LeaderUpTo(cands, i + 1, i);
  }

  /** A position with no fewer candidates leaves the leader in place. */
  lemma ScanStateKeep(order: seq<Position>, cands: seq<seq<Value>>, i: int, fewest: seq<Value>, at: Option<Position>)
    requires 0 <= i < |cands| && |cands| == |order| && ScanState(order, cands, i, fewest, at)
    requires |cands[i]| != 1 && |cands[i]| >= |fewest|
    ensures ScanState(order, cands, i + 1, fewest, at)
  {
    assert forall j :: 0 <= j < i + 1 ==> |cands[j]| != 1;
    if at.Some? {
      var k :| LeaderUpTo(cands, i, k) && order[k] == at.value && fewest == cands[k];
      assert LeaderUpTo(cands, i + 1, k);
    } else {
      assert |fewest| == 9;
      assert forall j :: 0 <= j < i + 1 ==> |cands[j]| >= 9;
    }
  }

  /** A position without a single does not change what the rest of the scan promises. */
  lemma ScanOutcomeStep(order: seq<Position>, cands: seq<seq<Value>>, i: int, c: Choice)
    requires 0 <= i < |cands| && |cands| == |order| && |cands[i]| != 1
    requires ScanOutcome(order, cands, i + 1, c)
    ensures ScanOutcome(order, cands, i, c)
  {
    if exists k :: i <= k < |cands| && |cands[k]| == 1 {
      var k :| i <= k < |cands| && |cands[k]| == 1;
      assert i + 1 <= k;
    }
  }

  /** The loop ends: the leader, if any, is where the source branches. */
  lemma ScanEnd(order: seq<Position>, cands: seq<seq<Value>>, fewest: seq<Value>, at: Option<Position>)
    requires |cands| == |order| && (at.Some? ==> at.value in order) && ScanState(order, cands, |order|, fewest, at)
    ensures ScanOutcome(order, cands, |order|, ScanFrom(order, cands, |order|, fewest, at))
  {
    if at.Some? {
      var k :| LeaderUpTo(cands, |order|, k) && order[k] == at.value && fewest == cands[k];
      assert FewestAt(cands, k);
    }
  }

  /** The loop meets a single: it is the first one. */
  lemma ScanSingle(order: seq<Position>, cands: seq<seq<Value>>, i: int, fewest: seq<Value>, at: Option<Position>)
    requires 0 <= i < |cands| && |cands| == |order| && (at.Some? ==> at.value in order)
    requires ScanState(order, cands, i, fewest, at) && |cands[i]| == 1
    ensures ScanOutcome(order, cands, i, ScanFrom(order, cands, i, fewest, at))
  {
    assert ScanFrom(order, cands, i, fewest, at) == Forced(order[i], cands[i][0]);
    assert FirstSingle(cands, i);
  }

  lemma {:induction false} ScanFromSpec(order: seq<Position>, cands: seq<seq<Value>>, i: int, fewest: seq<Value>, at: Option<Position>)
    requires 0 <= i <= |cands| && |cands| == |order| && (at.Some? ==> at.value in order)
    requires ScanState(order, cands, i, fewest, at)
    ensures ScanOutcome(order, cands, i, ScanFrom(order, cands, i, fewest, at))
    decreases |order| - i
  {
    if i == |order| {
      ScanEnd(order, cands, fewest, at);
    } else if |cands[i]| == 1 {
      ScanSingle(order, cands, i, fewest, at);
    } else if |cands[i]| < |fewest| {
      ScanStateNewLeader(order, cands, i, fewest, at);
      ScanFromSpec(order, cands, i + 1, cands[i], Some(order[i]));
      ScanOutcomeStep(order, cands, i, ScanFrom(order, cands, i + 1, cands[i], Some(order[i])));
    } else {
      ScanStateKeep(order, cands, i, fewest, at);
      ScanFromSpec(order, cands, i + 1, fewest, at);
      ScanOutcomeStep(order, cands, i, ScanFrom(order, cands, i + 1, fewest, at));
    }
  }

  /**
   * The scan's decision: a naked single wherever one occurs (the first in
   * iteration order), otherwise the earliest position with the fewest
   * candidates when that number is below 9, otherwise no position at all.
   */
  lemma ScanSpec(b: Board)
    ensures var c, order, cands := Scan(b), Unsolved(b), CandidatesOf(b, Unsolved(b));
            && (c.Forced? <==> exists k :: 0 <= k < |order| && |Candidates(b, order[k])| == 1)
            && (c.Forced? ==> exists k :: FirstSingle(cands, k) && c == Forced(order[k], Candidates(b, order[k])[0]))
            && (c.Branch? ==> exists k :: FewestAt(cands, k) && c == Branch(order[k], Candidates(b, order[k])))
            && (c.NoBranch? <==> forall j :: 0 <= j < |order| ==> |Candidates(b, order[j])| >= 9)
  {
    var order := Unsolved(b);
    var cands := CandidatesOf(b, order);
    ScanFromSpec(order, cands, 0, AllValues, None);
  }

  // ---------------------------------------------------------------------
  // The search
  // ---------------------------------------------------------------------

  /** `isValid` survives removing assignments, as a sudoku constraint check does. */
  ghost predicate DownwardClosed(isValid: Board -> bool) {
    forall s: Board, t: Board :: Extends(t, s) && isValid(t) ==> isValid(s)
  }

  /** A solved board that passes `isValid` repeats no value among neighbours. */
  ghost predicate SolvedValidIsConflictFree(isValid: Board -> bool) {
    forall t: Board :: IsSolved(t) && isValid(t) ==> ConflictFree(t)
  }

  /** A failure neither side has is not a failure of their combination. */
  lemma CombineKeepsOut(x: Outcome, y: Outcome, f: Failure)
    requires x != Failed(f) && y != Failed(f)
    ensures Combine(x, y) != Failed(f)
  {
  }

  /** When the union is found, each of the first n outcomes is found and contributes its solutions. */
  lemma {:induction false} UnionContains(outs: seq<Outcome>, n: int, m: int)
    requires 0 <= m < n <= |outs| && UnionUpTo(outs, n).Found?
    ensures outs[m].Found? && outs[m].solutions <= UnionUpTo(outs, n).solutions
  {
    if m < n - 1 {
      UnionContains(outs, n - 1, m);
    }
  }

  /** Every board in the union comes from one of the first n outcomes. */
  lemma {:induction false} UnionMember(outs: seq<Outcome>, n: int, s: Board)
    requires 0 <= n <= |outs| && UnionUpTo(outs, n).Found? && s in UnionUpTo(outs, n).solutions
    ensures exists m :: 0 <= m < n && outs[m].Found? && s in outs[m].solutions
  {
    if s !in outs[n - 1].solutions {
      UnionMember(outs, n - 1, s);
    }
  }

  /** A failure none of the first n outcomes has is not a failure of their union. */
  lemma {:induction false} UnionKeepsOut(outs: seq<Outcome>, n: int, f: Failure)
    requires 0 <= n <= |outs| && forall j :: 0 <= j < n ==> outs[j] != Failed(f)
    ensures UnionUpTo(outs, n) != Failed(f)
  {
    if n > 0 {
      UnionKeepsOut(outs, n - 1, f);
      CombineKeepsOut(UnionUpTo(outs, n - 1), outs[n - 1], f);
    }
  }

  /**
   * Soundness: every board `findSolutions` returns is solved, passes
   * `isValid`, and keeps every value of the board it started from.
   */
  lemma {:induction false} SolveSound(isValid: Board -> bool, b: Board, s: Board)
    requires Solve(isValid, b).Found? && s in Solve(isValid, b).solutions
    ensures isValid(s) && IsSolved(s) && Extends(s, b)
    decreases |UnsolvedSet(b)|, 1
  {
    if isValid(b) && !IsSolved(b) {
      match Scan(b) {
        case Forced(p, v) =>
          WithValueShrinks(b, p, v);
          assert Solve(isValid, b) == BranchResult(isValid, b, p, v);
          BranchSound(isValid, b, p, v, s);
        case Branch(p, vs) =>
          var outs := BranchResults(isValid, b, p, vs);
          UnionMember(outs, |vs|, s);
          var m :| 0 <= m < |vs| && outs[m].Found? && s in outs[m].solutions;
          assert outs[m] == BranchResult(isValid, b, p, vs[m]);
          BranchSound(isValid, b, p, vs[m], s);
      }
    }
  }

  /** A board one branch returns is solved, valid, and keeps the branch's board. */
  lemma {:induction false} BranchSound(isValid: Board -> bool, b: Board, p: Position, v: Value, s: Board)
    requires p in UnsolvedSet(b)
    requires BranchResult(isValid, b, p, v).Found? && s in BranchResult(isValid, b, p, v).solutions
    ensures isValid(s) && IsSolved(s) && Extends(s, b)
    decreases |UnsolvedSet(b)|, 0
  {
    WithValueShrinks(b, p, v);
    WithValueExtends(b, p, v);
    var next := WithValue(b, p, v).value;
    SolveSound(isValid, next, s);
    ExtendsTransitive(b, next, s);
  }

  /**
   * Completeness: when `isValid` is downward closed and only passes
   * conflict-free solved boards, a search that returns a set returns every
   * valid solution that extends the board.
   */
  lemma {:induction false} SolveComplete(isValid: Board -> bool, b: Board, t: Board)
    requires DownwardClosed(isValid) && SolvedValidIsConflictFree(isValid)
    requires IsSolved(t) && isValid(t) && Extends(t, b)
    requires Solve(isValid, b).Found?
    ensures t in Solve(isValid, b).solutions
    decreases |UnsolvedSet(b)|, 1
  {
    assert isValid(b);
    if IsSolved(b) {
      SolvedExtensionIsSame(b, t);
    } else {
      match Scan(b) {
        case Forced(q, v) =>
          SolutionTakesSingle(b, t, q, v);
          WithValueShrinks(b, q, v);
          assert Solve(isValid, b) == BranchResult(isValid, b, q, v);
          BranchResultComplete(isValid, b, q, v, t);
        case Branch(q, vs) =>
          var m := SolutionTakesBranch(b, t, q, vs);
          var outs := BranchResults(isValid, b, q, vs);
          UnionContains(outs, |vs|, m);
          assert outs[m] == BranchResult(isValid, b, q, vs[m]);
          BranchResultComplete(isValid, b, q, vs[m], t);
      }
    }
  }

  /** The branch that sets the solution's own value at q finds the solution. */
  lemma {:induction false} BranchResultComplete(isValid: Board -> bool, b: Board, q: Position, v: Value, t: Board)
    requires DownwardClosed(isValid) && SolvedValidIsConflictFree(isValid)
    requires IsSolved(t) && isValid(t) && Extends(t, b)
    requires q in UnsolvedSet(b) && q in t.assignment && t.assignment[q] == v
    requires BranchResult(isValid, b, q, v).Found?
    ensures t in BranchResult(isValid, b, q, v).solutions
    decreases |UnsolvedSet(b)|, 0
  {
    WithValueShrinks(b, q, v);
    var next := WithValue(b, q, v).value;
    assert Extends(t, next);
    SolveComplete(isValid, next, t);
  }

  /** A solved position is assigned. */
  lemma SolvedHas(t: Board, q: Position)
    requires IsSolved(t)
    ensures q in t.assignment
  {
    InAllPositions(q);
    assert q !in UnsolvedSet(t);
  }

  /** The naked single the scan finds has that one value as its only candidate. */
  lemma ScanForcedIsSingle(b: Board)
    requires Scan(b).Forced?
    ensures Candidates(b, Scan(b).pos) == [Scan(b).value]
  {
    ScanSpec(b);
    var order := Unsolved(b);
    var k :| FirstSingle(CandidatesOf(b, order), k) && Scan(b) == Forced(order[k], Candidates(b, order[k])[0]);
  }

  /** The branch the scan chooses ranges over the branch position's candidates. */
  lemma ScanBranchIsCandidates(b: Board)
    requires Scan(b).Branch?
    ensures Scan(b).values == Candidates(b, Scan(b).pos)
  {
    ScanSpec(b);
  }

  /** A conflict-free solution extending b holds the naked single the scan found. */
  lemma SolutionTakesSingle(b: Board, t: Board, q: Position, v: Value)
    requires Scan(b) == Forced(q, v)
    requires IsSolved(t) && ConflictFree(t) && Extends(t, b)
    ensures q in UnsolvedSet(b) && q in t.assignment && t.assignment[q] == v
  {
    ScanForcedIsSingle(b);
    SolvedHas(t, q);
    ExtensionValueIsCandidate(b, t, q);
  }

  /** A conflict-free solution extending b holds one of the branch values at the branch position. */
  lemma SolutionTakesBranch(b: Board, t: Board, q: Position, vs: seq<Value>) returns (m: int)
    requires Scan(b) == Branch(q, vs)
    requires IsSolved(t) && ConflictFree(t) && Extends(t, b)
    ensures q in UnsolvedSet(b) && 0 <= m < |vs| && q in t.assignment && t.assignment[q] == vs[m]
  {
    ScanBranchIsCandidates(b);
    SolvedHas(t, q);
    ExtensionValueIsCandidate(b, t, q);
    m :| 0 <= m < |vs| && vs[m] == t.assignment[q];
  }

  /** The naked-single step never meets `ValueAlreadySetException`: it only assigns unsolved positions. */
  lemma {:induction false} SolveNeverAlreadySet(isValid: Board -> bool, b: Board)
    ensures Solve(isValid, b) != Failed(AlreadySet)
    decreases |UnsolvedSet(b)|, 1
  {
    if isValid(b) && !IsSolved(b) {
      match Scan(b) {
        case Forced(p, v) =>
          WithValueShrinks(b, p, v);
          SolveNeverAlreadySet(isValid, WithValue(b, p, v).value);
        case Branch(p, vs) =>
          var outs := BranchResults(isValid, b, p, vs);
          forall j | 0 <= j < |vs|
            ensures outs[j] != Failed(AlreadySet)
          {
            BranchResultNeverAlreadySet(isValid, b, p, vs[j]);
          }
          UnionKeepsOut(outs, |vs|, AlreadySet);
        case NoBranch =>
      }
    }
  }

  lemma {:induction false} BranchResultNeverAlreadySet(isValid: Board -> bool, b: Board, p: Position, v: Value)
    requires p in UnsolvedSet(b)
    ensures BranchResult(isValid, b, p, v) != Failed(AlreadySet)
    decreases |UnsolvedSet(b)|, 0
  {
    WithValueShrinks(b, p, v);
    SolveNeverAlreadySet(isValid, WithValue(b, p, v).value);
  }

  /**
   * On the empty board every position has nine candidates, so no branch
   * position is chosen: a valid empty board reaches `withValue(null, v)`.
   */
  lemma EmptyBoardHasNoBranch(isValid: Board -> bool)
    requires isValid(Empty())
    ensures Scan(Empty()) == NoBranch
    ensures Solve(isValid, Empty()) == Failed(NoBranchPosition)
  {
    var order := Unsolved(Empty());
    UnsolvedSpec(Empty());
    forall j | 0 <= j < |order|
      ensures |Candidates(Empty(), order[j])| >= 9
    {
      EmptyCandidates(order[j]);
    }
    ScanSpec(Empty());
    InAllPositions(Position(0, 0));
    assert Position(0, 0) in UnsolvedSet(Empty());
  }

  /**
   * A board with a value and an unsolved position has an unsolved position
   * with an assigned neighbour: a peer of the assigned one, or else the cell
   * in the assigned one's row and the unsolved one's column.
   */
  lemma AssignedPeer(b: Board) returns (u: Position, q: Position)
    requires b.assignment != map[] && !IsSolved(b)
    ensures u in UnsolvedSet(b) && q in b.assignment && q in Neighbours(u)
  {
    assert b.assignment.Keys != {};
    var a :| a in b.assignment;
    var w :| w in UnsolvedSet(b);
    InNeighbours(w, a);
    if IsPeer(w, a) {
      u, q := w, a;
    } else {
      var m := Position(a.row, w.col);
      InNeighbours(m, a);
      InNeighbours(w, m);
      if m in b.assignment {
        u, q := w, m;
      } else {
        InAllPositions(m);
        u, q := m, a;
      }
    }
  }

  /** On a board with a value, an unsolved board always has a branch position (or a naked single). */
  lemma ScanNotNoBranch(b: Board)
    requires b.assignment != map[] && !IsSolved(b)
    ensures Scan(b) != NoBranch
  {
    var u, q := AssignedPeer(b);
    AssignedNeighbourNarrows(b, u, q);
    UnsolvedSpec(b);
    var order := Unsolved(b);
    var j :| 0 <= j < |order| && order[j] == u;
    ScanSpec(b);
  }

  /** When each of the first n outcomes is a set, so is their union. */
  lemma {:induction false} UnionFound(outs: seq<Outcome>, n: int)
    requires 0 <= n <= |outs| && forall j :: 0 <= j < n ==> outs[j].Found?
    ensures UnionUpTo(outs, n).Found?
  {
    if n > 0 {
      UnionFound(outs, n - 1);
    }
  }

  /** From a board with a value, the search returns a set: it never reaches `withValue(null, v)`. */
  lemma {:induction false} SolveFoundWithValue(isValid: Board -> bool, b: Board)
    requires b.assignment != map[]
    ensures Solve(isValid, b).Found?
    decreases |UnsolvedSet(b)|, 1
  {
    if isValid(b) && !IsSolved(b) {
      ScanNotNoBranch(b);
      match Scan(b) {
        case Forced(p, v) =>
          WithValueShrinks(b, p, v);
          assert Solve(isValid, b) == BranchResult(isValid, b, p, v);
          BranchFound(isValid, b, p, v);
        case Branch(p, vs) =>
          var outs := BranchResults(isValid, b, p, vs);
          forall j | 0 <= j < |vs|
            ensures outs[j].Found?
          {
            BranchFound(isValid, b, p, vs[j]);
          }
          UnionFound(outs, |vs|);
      }
    }
  }

  /** A branch sets a value, so its search returns a set. */
  lemma {:induction false} BranchFound(isValid: Board -> bool, b: Board, p: Position, v: Value)
    requires p in UnsolvedSet(b)
    ensures BranchResult(isValid, b, p, v).Found?
    decreases |UnsolvedSet(b)|, 0
  {
    WithValueShrinks(b, p, v);
    var next := WithValue(b, p, v).value;
    assert p in next.assignment;
    SolveFoundWithValue(isValid, next);
  }

  /**
   * The search returns a set exactly when the board has a value or fails
   * `isValid`: only a valid empty board ends at `withValue(null, v)`.
   */
  lemma SolveFound(isValid: Board -> bool, b: Board)
    ensures Solve(isValid, b).Found? <==> b.assignment != map[] || !isValid(b)
  {
    if b.assignment == map[] {
      if isValid(b) {
        assert b == Empty();
        EmptyBoardHasNoBranch(isValid);
      }
    } else {
      SolveFoundWithValue(isValid, b);
    }
  }

  /** The solver's hypotheses hold for the Sudoku rule: no value repeated among peers, and every empty cell keeps a candidate. */
  lemma ValidSpecMeetsHypotheses()
    ensures DownwardClosed(ValidSpec)
    ensures SolvedValidIsConflictFree(ValidSpec)
  {
    forall s: Board, t: Board | Extends(t, s) && ValidSpec(t)
      ensures ValidSpec(s)
    {
      ValidSpecDownwardClosed(s, t);
    }
  }

  /**
   * The solution set, when the search returns one, is exactly the valid
   * solved boards that extend the given board.
   */
  lemma SolutionsExactly(isValid: Board -> bool, b: Board)
    requires DownwardClosed(isValid) && SolvedValidIsConflictFree(isValid)
    requires Solve(isValid, b).Found?
    ensures forall s :: s in Solve(isValid, b).solutions <==> IsSolved(s) && isValid(s) && Extends(s, b)
  {
    forall s
      ensures s in Solve(isValid, b).solutions <==> IsSolved(s) && isValid(s) && Extends(s, b)
    {
      if s in Solve(isValid, b).solutions {
        SolveSound(isValid, b, s);
      }
      if IsSolved(s) && isValid(s) && Extends(s, b) {
        SolveComplete(isValid, b, s);
      }
    }
  }
}

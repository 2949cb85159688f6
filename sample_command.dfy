/**
 * `SampleCommand`: the two built-in puzzles and `load`, which fills an empty
 * board from a 9x9 grid of ints, row by row, setting a value for every
 * entry above 0.
 */
module SampleCommand {
  import opened Util
  import opened Grid
  import opened Boards

  /** How `load` can end without a board. */
  datatype LoadError =
    | IndexOutOfBounds  // a missing row or entry, or `Value.values()[value - 1]` past the end
    | AlreadySet        // `ValueAlreadySetException` from `withValue`

  /** `SAMPLE1`. */
  const Sample1: seq<seq<int>> := [
    [0, 0, 6, 0, 3, 1, 0, 7, 0],
    [4, 3, 7, 0, 0, 5, 0, 0, 0],
    [0, 1, 0, 4, 6, 7, 0, 0, 8],
    [0, 2, 9, 1, 7, 8, 3, 0, 0],
    [0, 0, 0, 0, 0, 0, 0, 2, 6],
    [3, 0, 0, 0, 5, 0, 0, 0, 0],
    [8, 0, 5, 0, 0, 4, 9, 1, 0],
    [0, 0, 3, 5, 0, 9, 0, 8, 7],
    [7, 9, 0, 0, 8, 6, 0, 0, 4]
  ]

  /** `SAMPLE2`. */
  const Sample2: seq<seq<int>> := [
    [0, 0, 0, 0, 0, 0, 0, 0, 6],
    [0, 9, 0, 3, 5, 0, 0, 7, 0],
    [0, 0, 0, 7, 0, 2, 0, 4, 0],
    [8, 0, 5, 0, 0, 0, 0, 0, 0],
    [0, 0, 0, 0, 0, 0, 7, 0, 0],
    [0, 0, 4, 0, 2, 6, 0, 0, 0],
    [0, 5, 8, 9, 0, 0, 0, 0, 0],
    [9, 0, 0, 0, 4, 0, 6, 0, 0],
    [4, 0, 0, 0, 7, 0, 0, 1, 0]
  ]

  /** The step of the row-major walk at which `load` visits p. */
  function Step(p: Position): int {
    p.row * 9 + p.col
  }

  /** The position `load` visits at step k; it is the only one with that step. */
  function Visit(k: int): (p: Position)
    requires 0 <= k < 81
    ensures Step(p) == k
  {
    Position(k / 9, k % 9)
  }

  lemma VisitStep(p: Position)
    ensures 0 <= Step(p) < 81 && Visit(Step(p)) == p
  {
  }

  /** The entry for p exists and names a value, or is not above 0. */
  predicate EntryOk(data: seq<seq<int>>, p: Position) {
    p.row < |data| && p.col < |data[p.row]| && data[p.row][p.col] <= 9
  }

  /** The entry for p is a clue: it exists and is in 1..9. */
  predicate IsClue(data: seq<seq<int>>, p: Position) {
    EntryOk(data, p) && data[p.row][p.col] > 0
  }

  /** Every entry visited before step k is good. */
  ghost predicate LoadableBelow(data: seq<seq<int>>, k: int) {
    forall p: Position :: Step(p) < k ==> EntryOk(data, p)
  }

  /** The clues visited before step k, with their values. */
  function CluesBelow(data: seq<seq<int>>, k: int): map<Position, Value> {
    map p: Position | p in AllPositions() && Step(p) < k && IsClue(data, p) :: data[p.row][p.col]
  }

  /**
   * `load`: walk the grid row by row from an empty board, setting
   * `Value.values()[value - 1]` at every entry above 0. It never meets
   * `ValueAlreadySetException`: with every entry present and at most 9 it
   * sets exactly the clues, and otherwise it stops on an index error.
   */
  method Load(data: seq<seq<int>>) returns (r: Result<Board, LoadError>)
    ensures LoadableBelow(data, 81) ==> r == Ok(Board(CluesBelow(data, 81)))
    ensures !LoadableBelow(data, 81) ==> r == Err(IndexOutOfBounds)
  {
    NoCluesBelowZero(data);
    var board := Empty();
    for row := 0 to 9
      invariant LoadableBelow(data, 9 * row) && board == Board(CluesBelow(data, 9 * row))
    {
      for col := 0 to 9
        invariant LoadableBelow(data, 9 * row + col) && board == Board(CluesBelow(data, 9 * row + col))
      {
        var position := Position(row, col);
        assert Step(position) == 9 * row + col;
        LoadCell(data, position);
        if !(row < |data| && col < |data[row]|) {
          return Err(IndexOutOfBounds);
        }
        var value := data[row][col];
        if value > 0 {
          if value - 1 >= |AllValues| {
            return Err(IndexOutOfBounds);
          }
          LoadSet(data, board, position);
          var next := WithValue(board, position, AllValues[value - 1]);
          if next.Err? {
            return Err(AlreadySet);
          }
          board := next.value;
        }
      }
    }
    return Ok(board);
  }

  /** Setting the clue at p on the board of the earlier clues succeeds and gives the board of the clues up to p. */
  lemma LoadSet(data: seq<seq<int>>, board: Board, p: Position)
    requires LoadableBelow(data, Step(p)) && board == Board(CluesBelow(data, Step(p))) && IsClue(data, p)
    ensures WithValue(board, p, AllValues[data[p.row][p.col] - 1]) == Ok(Board(CluesBelow(data, Step(p) + 1)))
  {
    LoadCell(data, p);
  }

  /** What visiting p does to the loadable prefix and to the clues collected so far. */
  lemma LoadCell(data: seq<seq<int>>, p: Position)
    requires LoadableBelow(data, Step(p))
    ensures !EntryOk(data, p) ==> !LoadableBelow(data, 81)
    ensures EntryOk(data, p) ==> LoadableBelow(data, Step(p) + 1)
    ensures p !in CluesBelow(data, Step(p))
    ensures CluesBelow(data, Step(p) + 1) ==
              if IsClue(data, p) then CluesBelow(data, Step(p))[p := data[p.row][p.col]] else CluesBelow(data, Step(p))
  {
    VisitStep(p);
    LoadableStep(data, Step(p));
    CluesStep(data, Step(p));
  }

  // ---------------------------------------------------------------------
  // Lemmas
  // ---------------------------------------------------------------------

  /** One more step adds its clue, if any, to the clues so far. */
  lemma CluesStep(data: seq<seq<int>>, k: int)
    requires 0 <= k < 81
    ensures var p := Visit(k);
            CluesBelow(data, k + 1) ==
              if IsClue(data, p) then CluesBelow(data, k)[p := data[p.row][p.col]] else CluesBelow(data, k)
    ensures Visit(k) !in CluesBelow(data, k)
  {
    var p := Visit(k);
    forall q: Position
      ensures Step(q) == k <==> q == p
    {
      VisitStep(q);
    }
    forall q: Position
      ensures q in AllPositions()
    {
      InAllPositions(q);
    }
  }

  /** Being loadable below k + 1 is being loadable below k with a good entry at step k. */
  lemma LoadableStep(data: seq<seq<int>>, k: int)
    requires 0 <= k < 81
    ensures LoadableBelow(data, k + 1) <==> LoadableBelow(data, k) && EntryOk(data, Visit(k))
  {
    forall q: Position
      ensures Step(q) == k ==> q == Visit(k)
    {
      VisitStep(q);
    }
  }

  lemma NoCluesBelowZero(data: seq<seq<int>>)
    ensures LoadableBelow(data, 0) && Board(CluesBelow(data, 0)) == Empty()
  {
    assert CluesBelow(data, 0) == map[];
  }

  /** With every entry good, a position is a clue exactly when its entry is above 0, and maps to that entry. */
  lemma CluesAt(data: seq<seq<int>>, p: Position)
    requires LoadableBelow(data, 81)
    ensures EntryOk(data, p)
    ensures p in CluesBelow(data, 81) <==> data[p.row][p.col] > 0
    ensures p in CluesBelow(data, 81) ==> CluesBelow(data, 81)[p] == data[p.row][p.col]
  {
    VisitStep(p);
    InAllPositions(p);
  }

  /** The number of entries above 0 among the first n of a row. */
  function Positives(row: seq<int>, n: int): nat
    requires 0 <= n <= |row|
  {
    if n == 0 then 0 else Positives(row, n - 1) + (if row[n - 1] > 0 then 1 else 0)
  }

  /** The positive entries of a row of nine, one by one. */
  lemma PositivesOfNine(row: seq<int>)
    requires |row| == 9
    ensures Positives(row, 9) ==
              (if row[0] > 0 then 1 else 0) + (if row[1] > 0 then 1 else 0) + (if row[2] > 0 then 1 else 0) +
              (if row[3] > 0 then 1 else 0) + (if row[4] > 0 then 1 else 0) + (if row[5] > 0 then 1 else 0) +
              (if row[6] > 0 then 1 else 0) + (if row[7] > 0 then 1 else 0) + (if row[8] > 0 then 1 else 0)
  {
    assert Positives(row, 1) == if row[0] > 0 then 1 else 0;
    assert Positives(row, 3) == Positives(row, 1) + (if row[1] > 0 then 1 else 0) + (if row[2] > 0 then 1 else 0);
    assert Positives(row, 5) == Positives(row, 3) + (if row[3] > 0 then 1 else 0) + (if row[4] > 0 then 1 else 0);
    assert Positives(row, 7) == Positives(row, 5) + (if row[5] > 0 then 1 else 0) + (if row[6] > 0 then 1 else 0);
  }

  /** The number of entries above 0 in the first n rows. */
  function RowsPositives(data: seq<seq<int>>, n: int): nat
    requires 0 <= n <= |data|
  {
    if n == 0 then 0 else RowsPositives(data, n - 1) + Positives(data[n - 1], |data[n - 1]|)
  }

  /** Nine rows of nine entries, each in 0..9. */
  predicate NineByNine(data: seq<seq<int>>) {
    |data| == 9 && (forall r :: 0 <= r < 9 ==> |data[r]| == 9) &&
    forall r, c :: 0 <= r < 9 && 0 <= c < 9 ==> 0 <= data[r][c] <= 9
  }

  /** Visiting (r, c), step k - 1 of a 9x9 grid, adds one clue exactly when the entry is above 0. */
  lemma CluesCellStep(data: seq<seq<int>>, r: Index, c: Index, k: int)
    requires NineByNine(data) && k == 9 * r + c + 1
    ensures |CluesBelow(data, k)| == |CluesBelow(data, k - 1)| + (if data[r][c] > 0 then 1 else 0)
  {
    var p := Position(r, c);
    VisitStep(p);
    assert Visit(k - 1) == p;
    CluesStep(data, k - 1);
    assert IsClue(data, p) <==> data[r][c] > 0;
  }

  /**
   * In a 9x9 grid, the clues visited before (r, c), at step k, are the
   * positive entries of the earlier rows and of row r before c.
   */
  lemma {:induction false} CluesInRow(data: seq<seq<int>>, r: Index, c: int, k: int)
    requires NineByNine(data) && 0 <= c <= 9 && k == 9 * r + c
    ensures |CluesBelow(data, k)| == RowsPositives(data, r) + Positives(data[r], c)
    decreases r, c
  {
    if c > 0 {
      CluesInRow(data, r, c - 1, k - 1);
      CluesCellStep(data, r, c - 1, k);
    } else if r > 0 {
      CluesInRow(data, r - 1, 9, k);
    } else {
      NoCluesBelowZero(data);
    }
  }

  /** A 9x9 grid with entries in 0..9 loads, with as many clues as it has positive entries. */
  lemma ClueCount(data: seq<seq<int>>)
    requires NineByNine(data)
    ensures LoadableBelow(data, 81)
    ensures |CluesBelow(data, 81)| == RowsPositives(data, 9)
  {
    CluesInRow(data, 8, 9, 81);
  }

  /** The positive entries of a 9x9 grid, row by row. */
  lemma RowsOfNine(data: seq<seq<int>>)
    requires NineByNine(data)
    ensures RowsPositives(data, 9) ==
              Positives(data[0], 9) + Positives(data[1], 9) + Positives(data[2], 9) +
              Positives(data[3], 9) + Positives(data[4], 9) + Positives(data[5], 9) +
              Positives(data[6], 9) + Positives(data[7], 9) + Positives(data[8], 9)
  {
    assert RowsPositives(data, 1) == Positives(data[0], 9);
    assert RowsPositives(data, 3) == RowsPositives(data, 1) + Positives(data[1], 9) + Positives(data[2], 9);
    assert RowsPositives(data, 5) == RowsPositives(data, 3) + Positives(data[3], 9) + Positives(data[4], 9);
    assert RowsPositives(data, 7) == RowsPositives(data, 5) + Positives(data[5], 9) + Positives(data[6], 9);
  }

  /** `SAMPLE1` is 9x9 with every entry in 0..9 and has 38 positive entries. */
  lemma Sample1Positives()
    ensures NineByNine(Sample1) && RowsPositives(Sample1, 9) == 38
  {
    assert NineByNine(Sample1);
    RowsOfNine(Sample1);
    Sample1Rows();
  }

  /** The positive entries of each row of `SAMPLE1`. */
  lemma Sample1Rows()
    ensures Positives(Sample1[0], 9) == 4 && Positives(Sample1[1], 9) == 4 && Positives(Sample1[2], 9) == 5 && Positives(Sample1[3], 9) == 6 && Positives(Sample1[4], 9) == 2 && Positives(Sample1[5], 9) == 2 && Positives(Sample1[6], 9) == 5 && Positives(Sample1[7], 9) == 5 && Positives(Sample1[8], 9) == 5
  {
    PositivesOfNine(Sample1[0]);
    PositivesOfNine(Sample1[1]);
    PositivesOfNine(Sample1[2]);
    PositivesOfNine(Sample1[3]);
    PositivesOfNine(Sample1[4]);
    PositivesOfNine(Sample1[5]);
    PositivesOfNine(Sample1[6]);
    PositivesOfNine(Sample1[7]);
    PositivesOfNine(Sample1[8]);
  }

  /** `load(SAMPLE1)` succeeds, with 38 clues. */
  lemma Sample1Clues()
    ensures NineByNine(Sample1) && LoadableBelow(Sample1, 81) && |CluesBelow(Sample1, 81)| == 38
  {
    Sample1Positives();
    ClueCount(Sample1);
  }

  /** `SAMPLE2` is 9x9 with every entry in 0..9 and has 23 positive entries. */
  lemma Sample2Positives()
    ensures NineByNine(Sample2) && RowsPositives(Sample2, 9) == 23
  {
    assert NineByNine(Sample2);
    RowsOfNine(Sample2);
    Sample2Rows();
  }

  /** The positive entries of each row of `SAMPLE2`. */
  lemma Sample2Rows()
    ensures Positives(Sample2[0], 9) == 1 && Positives(Sample2[1], 9) == 4 && Positives(Sample2[2], 9) == 3 && Positives(Sample2[3], 9) == 2 && Positives(Sample2[4], 9) == 1 && Positives(Sample2[5], 9) == 3 && Positives(Sample2[6], 9) == 3 && Positives(Sample2[7], 9) == 3 && Positives(Sample2[8], 9) == 3
  {
    PositivesOfNine(Sample2[0]);
    PositivesOfNine(Sample2[1]);
    PositivesOfNine(Sample2[2]);
    PositivesOfNine(Sample2[3]);
    PositivesOfNine(Sample2[4]);
    PositivesOfNine(Sample2[5]);
    PositivesOfNine(Sample2[6]);
    PositivesOfNine(Sample2[7]);
    PositivesOfNine(Sample2[8]);
  }

  /** `load(SAMPLE2)` succeeds, with 23 clues. */
  lemma Sample2Clues()
    ensures NineByNine(Sample2) && LoadableBelow(Sample2, 81) && |CluesBelow(Sample2, 81)| == 23
  {
    Sample2Positives();
    ClueCount(Sample2);
  }
}

/**
 * The cell-based `SudokuBoard`: a 9x9 array of `Cell`s wired as neighbours
 * by row, column and block, a copy-on-write `withValue(row, col, value)` and
 * a fixed-format `toString`.
 *
 * Each wiring group is a `HashSet<Cell>` under Lombok's structural equality.
 * While the groups are built every cell is still fresh, so all nine cells of
 * a group are equal, only the first is kept, and the one cell of each group
 * is never its own neighbour: no cell gains a neighbour, and the neighbour
 * conflict check of `withValue` never fires. `SetCell` is the resulting
 * behaviour on values; `SetCellChecked` is the evidently intended one.
 */
module CellBoard {
  import opened Util
  import opened Grid
  import opened Cells

  datatype CellBoardError =
    | OutOfBounds                // `ArrayIndexOutOfBoundsException` on `cells[setRow][setCol]`
    | ValueAlreadySet            // `ValueAlreadySetException`
    | ConflictingNeighbourValue  // `ConflictingNeighbourValueException`

  /** The cells of a grid. */
  ghost function CellsOf(a: array2<Cell>): set<Cell>
    reads a
  {
    set r, c | 0 <= r < a.Length0 && 0 <= c < a.Length1 :: a[r, c]
  }

  /** Every cell is as `new Cell()` leaves it. */
  ghost predicate Pristine(a: array2<Cell>)
    reads a, CellsOf(a)
  {
    forall r, c :: 0 <= r < a.Length0 && 0 <= c < a.Length1 ==> a[r, c].value == None && a[r, c].neighbours == {}
  }

  /** No cell sits at two places of the grid. */
  ghost predicate Distinct(a: array2<Cell>)
    reads a
  {
    forall r1, c1, r2, c2 ::
      (0 <= r1 < a.Length0 && 0 <= c1 < a.Length1 && 0 <= r2 < a.Length0 && 0 <= c2 < a.Length1 &&
       (r1 != r2 || c1 != c2)) ==> a[r1, c1] != a[r2, c2]
  }

  /** Every cell is represented in the group, under `@Data` equality. */
  ghost predicate Covers(group: set<Cell>, members: set<Cell>)
    reads group, members
  {
    forall x :: x in members ==> Represented(group, x)
  }

  // ---------------------------------------------------------------------
  // The values of a board, and what `withValue` and `toString` do to them
  // ---------------------------------------------------------------------

  /** `withValue` as written, on values: no neighbour value is ever seen, so only the already-set test can fail. */
  function SetCell(g: map<Position, int>, row: int, col: int, v: int): (r: Result<map<Position, int>, CellBoardError>)
    ensures r == Err(OutOfBounds) <==> At(row, col).None?
    ensures r == Err(ValueAlreadySet) <==> At(row, col).Some? && At(row, col).value in g && g[At(row, col).value] != v
    ensures r.Err? ==> r.error != ConflictingNeighbourValue
    ensures r.Ok? ==> forall p :: p in r.value <==> p in g || p == At(row, col).value
    ensures r.Ok? ==> r.value[At(row, col).value] == v
    ensures r.Ok? ==> forall p :: p in g && p != At(row, col).value ==> r.value[p] == g[p]
  {
    match At(row, col)
    case None => Err(OutOfBounds)
    case Some(p) => if p in g && g[p] != v then Err(ValueAlreadySet) else Ok(g[p := v])
  }

  /**
   * The values held by the peers of p: the same set as `Boards.NeighbourValues`,
   * taken over this board's int values, and meant to agree with it.
   */
  function PeerValues(g: map<Position, int>, p: Position): set<int> {
    set q | q in Neighbours(p) && q in g :: g[q]
  }

  /** No value is repeated among peers; `Boards.ConflictFree` states the same rule. */
  predicate NoPeerConflict(g: map<Position, int>) {
    forall p :: p in g ==> g[p] !in PeerValues(g, p)
  }

  /** `withValue` as the neighbour check intends it: a value held by a peer is refused. */
  function SetCellChecked(g: map<Position, int>, row: int, col: int, v: int): (r: Result<map<Position, int>, CellBoardError>)
    ensures r == Err(OutOfBounds) <==> At(row, col).None?
    ensures r == Err(ValueAlreadySet) <==> At(row, col).Some? && At(row, col).value in g && g[At(row, col).value] != v
    ensures r == Err(ConflictingNeighbourValue) <==>
              At(row, col).Some? && !(At(row, col).value in g && g[At(row, col).value] != v) && v in PeerValues(g, At(row, col).value)
    ensures r.Ok? ==> r == SetCell(g, row, col, v)
  {
    match At(row, col)
    case None => Err(OutOfBounds)
    case Some(p) =>
      if p in g && g[p] != v then Err(ValueAlreadySet)
      else if v in PeerValues(g, p) then Err(ConflictingNeighbourValue)
      else Ok(g[p := v])
  }

  /** Java's `Integer.toString`. */
  function IntToString(n: int): string {
    if n < 0 then "-" + NatToString(-n) else NatToString(n)
  }

  function NatToString(n: nat): string
    decreases n
  {
    if n < 10 then [Digit(n)] else NatToString(n / 10) + [Digit(n % 10)]
  }

  function Digit(d: int): char
    requires 0 <= d < 10
  {
    ['0', '1', '2', '3', '4', '5', '6', '7', '8', '9'][d]
  }

  /** What one cell contributes to its line: the value or a dot, then the separator. */
  function CellPiece(g: map<Position, int>, row: Index, col: Index): string {
    var p := Position(row, col);
    " " + (if p in g then IntToString(g[p]) else ".") + (if col % 3 == 2 then " $" else " |")
  }

  /** The first n cells of a line. */
  function LinePrefix(g: map<Position, int>, row: Index, n: int): string
    requires 0 <= n <= 9
  {
    if n == 0 then "" else LinePrefix(g, row, n - 1) + CellPiece(g, row, n - 1)
  }

  function Line(g: map<Position, int>, row: Index): string {
    "$" + LinePrefix(g, row, 9) + "\n"
  }

  /** The first n lines of `toString`. */
  function Lines(g: map<Position, int>, n: int): string
    requires 0 <= n <= 9
  {
    if n == 0 then "" else Lines(g, n - 1) + Line(g, n - 1)
  }

  /** `toString` as a function of the board's values. */
  function Render(g: map<Position, int>): string {
    Lines(g, 9)
  }

  // ---------------------------------------------------------------------
  // The board
  // ---------------------------------------------------------------------

  class SudokuBoard {
    const cells: array2<Cell>

    ghost predicate Valid()
      reads this, cells
    {
      cells.Length0 == 9 && cells.Length1 == 9 && Distinct(cells)
    }

    /** The values of the board, by position. */
    ghost function Snapshot(): map<Position, int>
      requires Valid()
      reads this, cells, CellsOf(cells)
    {
      map p: Position | p in AllPositions() && cells[p.row, p.col].value.Some? :: cells[p.row, p.col].value.value
    }

    /** No cell of the board has a neighbour. */
    ghost predicate Unwired()
      requires Valid()
      reads this, cells, CellsOf(cells)
    {
      forall r, c :: 0 <= r < 9 && 0 <= c < 9 ==> cells[r, c].neighbours == {}
    }

    /**
     * The private constructor: 81 fresh cells, then the row, column and
     * block wiring. Every cell comes out without a value and, because each
     * wiring group collapses to one cell, without a neighbour.
     */
    constructor ()
      ensures Valid() && fresh(cells) && fresh(CellsOf(cells))
      ensures Pristine(cells)
    {
      var a := NewCells();
      WireRows(a);
      WireCols(a);
      WireBlocks(a);
      cells := a;
    }

    /** The allocation loops of the constructor: 81 distinct fresh cells, none wired yet. */
    static method NewCells() returns (a: array2<Cell>)
      ensures fresh(a) && a.Length0 == 9 && a.Length1 == 9 && Distinct(a)
      ensures forall r, c :: 0 <= r < 9 && 0 <= c < 9 ==> fresh(a[r, c])
      ensures Pristine(a)
    {
      var first := new Cell();
      a := new Cell[9, 9]((_, _) => first);
      for row := 0 to 9
        invariant forall r, c :: 0 <= r < row && 0 <= c < 9 ==> fresh(a[r, c])
        invariant forall r, c :: 0 <= r < row && 0 <= c < 9 ==> a[r, c].value == None && a[r, c].neighbours == {}
        invariant forall r1, c1, r2, c2 ::
                    (0 <= r1 < row && 0 <= c1 < 9 && 0 <= r2 < row && 0 <= c2 < 9 && (r1 != r2 || c1 != c2)) ==>
                    a[r1, c1] != a[r2, c2]
      {
        for col := 0 to 9
          invariant forall r, c :: (0 <= r < row && 0 <= c < 9) || (r == row && 0 <= c < col) ==> fresh(a[r, c])
          invariant forall r, c :: (0 <= r < row && 0 <= c < 9) || (r == row && 0 <= c < col) ==>
                      a[r, c].value == None && a[r, c].neighbours == {}
          invariant forall r1, c1, r2, c2 ::
                      (((0 <= r1 < row && 0 <= c1 < 9) || (r1 == row && 0 <= c1 < col)) &&
                       ((0 <= r2 < row && 0 <= c2 < 9) || (r2 == row && 0 <= c2 < col)) &&
                       (r1 != r2 || c1 != c2)) ==>
                      a[r1, c1] != a[r2, c2]
        {
          a[row, col] := new Cell();
        }
      }
    }

    /** `empty()`: a new board with no value. */
    static method Empty() returns (board: SudokuBoard)
      ensures fresh(board) && board.Valid() && board.Snapshot() == map[] && board.Unwired()
    {
      board := new SudokuBoard();
      assert board.Snapshot() == map[];
    }

    /**
     * `withValue`: copy every value into a fresh board, then refuse a cell
     * that holds a different value or whose neighbours hold `setValue`, and
     * otherwise set it. `this` is left unchanged.
     */
    method WithValue(setRow: int, setCol: int, setValue: int) returns (r: Result<SudokuBoard, CellBoardError>)
      requires Valid()
      ensures r.Err? <==> SetCell(Snapshot(), setRow, setCol, setValue).Err?
      ensures r.Err? ==> r.error == SetCell(Snapshot(), setRow, setCol, setValue).error
      ensures r.Ok? ==> fresh(r.value) && fresh(r.value.cells) && r.value.Valid() && r.value.Unwired()
      ensures r.Ok? ==> r.value.Snapshot() == SetCell(Snapshot(), setRow, setCol, setValue).value
    {
      var result := new SudokuBoard();
      CopyValues(this, result);
      if 0 <= setRow < 9 && 0 <= setCol < 9 {
        assert ValuesOf(result.cells[setRow, setCol].neighbours) == {};
        SnapshotAt(result, setRow, setCol);
      }
      var error := CheckAndSet(result, setRow, setCol, setValue);
      assert error != Some(ConflictingNeighbourValue);
      if error.Some? {
        assert error.value == OutOfBounds || error.value == ValueAlreadySet;
        return Err(error.value);
      }
      return Ok(result);
    }

    /** `toString`: nine lines built cell by cell. */
    method ToString() returns (s: string)
      requires Valid()
      ensures s == Render(Snapshot())
    {
      ghost var g := Snapshot();
      s := "";
      for row := 0 to 9
        invariant s == Lines(g, row)
      {
        s := s + "$";
        ghost var head := s;
        for col := 0 to 9
          invariant s == head + LinePrefix(g, row, col)
        {
          var piece := CellText(row, col);
          AppendPiece(head, g, row, col);
          s := s + piece;
        }
        AppendLine(g, row);
        s := s + "\n";
      }
      assert s == Lines(g, 9);
      assert g == Snapshot();
    }

    /** One cell of `toString`: a space, the value or '.', then the block or cell separator. */
    method CellText(row: Index, col: Index) returns (piece: string)
      requires Valid()
      ensures piece == CellPiece(Snapshot(), row, col)
    {
      var cell := cells[row, col];
      piece := " ";
      if cell.value.Some? {
        piece := piece + IntToString(cell.value.value);
      } else {
        piece := piece + ".";
      }
      assert Position(row, col) in AllPositions();
      if col % 3 == 2 {
        piece := piece + " $";
      } else {
        piece := piece + " |";
      }
    }
  }

  lemma AppendLine(g: map<Position, int>, row: Index)
    ensures Lines(g, row) + "$" + LinePrefix(g, row, 9) + "\n" == Lines(g, row + 1)
  {
  }

  lemma AppendPiece(head: string, g: map<Position, int>, row: Index, col: Index)
    ensures head + LinePrefix(g, row, col) + CellPiece(g, row, col) == head + LinePrefix(g, row, col + 1)
  {
  }

  /** The copy loops of `withValue`: every value of `from` into the matching cell of `to`. */
  method CopyValues(from: SudokuBoard, to: SudokuBoard)
    requires from.Valid() && to.Valid() && to.Unwired()
    requires CellsOf(from.cells) !! CellsOf(to.cells)
    modifies CellsOf(to.cells)
    ensures to.Valid() && to.Unwired()
    ensures to.Snapshot() == from.Snapshot()
  {
    for row := 0 to 9
      invariant to.Unwired()
      invariant forall i, j :: 0 <= i < row && 0 <= j < 9 ==> to.cells[i, j].value == from.cells[i, j].value
    {
      for col := 0 to 9
        invariant to.Unwired()
        invariant forall i, j :: 0 <= i < row && 0 <= j < 9 ==> to.cells[i, j].value == from.cells[i, j].value
        invariant forall j :: 0 <= j < col ==> to.cells[row, j].value == from.cells[row, j].value
      {
        assert to.cells[row, col] in CellsOf(to.cells);
        to.cells[row, col].value := from.cells[row, col].value;
      }
    }
    SnapshotsAgree(from, to);
  }

  /** A position is in the snapshot exactly when its cell has a value, and maps to that value. */
  lemma SnapshotAt(board: SudokuBoard, row: Index, col: Index)
    requires board.Valid()
    ensures Position(row, col) in board.Snapshot() <==> board.cells[row, col].value.Some?
    ensures Position(row, col) in board.Snapshot() ==> board.Snapshot()[Position(row, col)] == board.cells[row, col].value.value
  {
    InAllPositions(Position(row, col));
  }

  /** Boards whose cells hold the same values have the same snapshot. */
  lemma SnapshotsAgree(x: SudokuBoard, y: SudokuBoard)
    requires x.Valid() && y.Valid()
    requires forall i, j :: 0 <= i < 9 && 0 <= j < 9 ==> y.cells[i, j].value == x.cells[i, j].value
    ensures y.Snapshot() == x.Snapshot()
  {
  }

  /**
   * The checks and the final `setValue` of `withValue`, on the fresh copy:
   * the array bound, then a different value already set, then a neighbour
   * holding the value; only when all pass is the cell set.
   */
  method CheckAndSet(board: SudokuBoard, setRow: int, setCol: int, setValue: int) returns (error: Option<CellBoardError>)
    requires board.Valid() && forall i, j :: 0 <= i < 9 && 0 <= j < 9 ==> board.cells[i, j].Valid()
    modifies CellsOf(board.cells)
    ensures board.Valid()
    ensures forall i, j :: 0 <= i < 9 && 0 <= j < 9 ==> board.cells[i, j].neighbours == old(board.cells[i, j].neighbours)
    ensures error == Some(OutOfBounds) <==> !(0 <= setRow < 9 && 0 <= setCol < 9)
    ensures error == Some(ValueAlreadySet) <==>
              0 <= setRow < 9 && 0 <= setCol < 9 &&
              old(board.cells[setRow, setCol].value).Some? && old(board.cells[setRow, setCol].value).value != setValue
    ensures error == Some(ConflictingNeighbourValue) <==>
              0 <= setRow < 9 && 0 <= setCol < 9 &&
              !(old(board.cells[setRow, setCol].value).Some? && old(board.cells[setRow, setCol].value).value != setValue) &&
              setValue in old(ValuesOf(board.cells[setRow, setCol].neighbours))
    ensures error.Some? ==> board.Snapshot() == old(board.Snapshot())
    ensures error.None? ==> board.Snapshot() == old(board.Snapshot())[Position(setRow, setCol) := setValue]
  {
    if !(0 <= setRow < 9 && 0 <= setCol < 9) {
      return Some(OutOfBounds);
    }
    var cell := board.cells[setRow, setCol];
    assert cell in CellsOf(board.cells);
    if cell.value.Some? && cell.value.value != setValue {
      return Some(ValueAlreadySet);
    }
    var neighbourValues := cell.GetNeighbourValues();
    if setValue in neighbourValues {
      return Some(ConflictingNeighbourValue);
    }
    ghost var before := board.Snapshot();
    cell.value := Some(setValue);
    SnapshotAfterSet(board, before, setRow, setCol, setValue);
    return None;
  }

  /** After one cell of a distinct grid gets a value, the snapshot is updated at that position only. */
  lemma SnapshotAfterSet(board: SudokuBoard, before: map<Position, int>, row: Index, col: Index, v: int)
    requires board.Valid() && board.cells[row, col].value == Some(v)
    requires forall p :: p in AllPositions() && p != Position(row, col) ==>
               (p in before <==> board.cells[p.row, p.col].value.Some?) &&
               (p in before ==> before[p] == board.cells[p.row, p.col].value.value)
    ensures board.Snapshot() == before[Position(row, col) := v]
  {
    forall p
      ensures p in board.Snapshot() <==> p in before[Position(row, col) := v]
    {
      InAllPositions(p);
    }
  }

  // ---------------------------------------------------------------------
  // The wiring
  // ---------------------------------------------------------------------

  /** The row's `HashSet<Cell>`: a member for every cell of the row, up to equality. */
  method RowGroup(a: array2<Cell>, row: int) returns (group: set<Cell>)
    requires a.Length0 == 9 && a.Length1 == 9 && 0 <= row < 9
    ensures group <= CellsOf(a)
    ensures forall c :: 0 <= c < 9 ==> Represented(group, a[row, c])
    ensures Pristine(a) ==> group == {a[row, 0]}
  {
    group := {};
    for col := 0 to 9
      invariant group <= set c | 0 <= c < col :: a[row, c]
      invariant forall c :: 0 <= c < col ==> Represented(group, a[row, c])
      invariant Pristine(a) ==> group == if col == 0 then {} else {a[row, 0]}
    {
      ghost var before := group;
      group := Insert(group, a[row, col]);
      forall c | 0 <= c < col
        ensures Represented(group, a[row, c])
      {
        RepresentedGrows(before, group, a[row, c]);
      }
      if Pristine(a) && col > 0 {
        FreshCellsEqual(a[row, 0], a[row, col]);
      }
    }
  }

  /** The column's `HashSet<Cell>`. */
  method ColGroup(a: array2<Cell>, col: int) returns (group: set<Cell>)
    requires a.Length0 == 9 && a.Length1 == 9 && 0 <= col < 9
    ensures group <= CellsOf(a)
    ensures forall r :: 0 <= r < 9 ==> Represented(group, a[r, col])
    ensures Pristine(a) ==> group == {a[0, col]}
  {
    group := {};
    for row := 0 to 9
      invariant group <= set r | 0 <= r < row :: a[r, col]
      invariant forall r :: 0 <= r < row ==> Represented(group, a[r, col])
      invariant Pristine(a) ==> group == if row == 0 then {} else {a[0, col]}
    {
      ghost var before := group;
      group := Insert(group, a[row, col]);
      forall r | 0 <= r < row
        ensures Represented(group, a[r, col])
      {
        RepresentedGrows(before, group, a[r, col]);
      }
      if Pristine(a) && row > 0 {
        FreshCellsEqual(a[0, col], a[row, col]);
      }
    }
  }

  /** The cell at offset (i, j) from (r0, c0) is represented in the group. */
  ghost predicate HasOffset(group: set<Cell>, a: array2<Cell>, r0: int, c0: int, i: int, j: int)
    requires a.Length0 == 9 && a.Length1 == 9 && 0 <= r0 <= 6 && 0 <= c0 <= 6 && 0 <= i < 3 && 0 <= j < 3
    reads group, a, a[r0 + i, c0 + j]
  {
    Represented(group, a[r0 + i, c0 + j])
  }

  /** The block's `HashSet<Cell>`, filled column offset by column offset. */
  method BlockGroup(a: array2<Cell>, blockRow: int, blockCol: int) returns (group: set<Cell>)
    requires a.Length0 == 9 && a.Length1 == 9 && 0 <= blockRow < 3 && 0 <= blockCol < 3
    ensures group <= CellsOf(a)
    ensures forall p :: p in BlockCells(blockRow, blockCol) ==> Represented(group, a[p.row, p.col])
    ensures Pristine(a) ==> group == {a[blockRow * 3, blockCol * 3]}
  {
    var r0, c0 := blockRow * 3, blockCol * 3;
    group := {};
    for colOffset := 0 to 3
      invariant group <= CellsOf(a)
      invariant forall i, j :: 0 <= i < 3 && 0 <= j < colOffset ==> HasOffset(group, a, r0, c0, i, j)
      invariant Pristine(a) ==> group == if colOffset == 0 then {} else {a[r0, c0]}
    {
      for rowOffset := 0 to 3
        invariant group <= CellsOf(a)
        invariant forall i, j :: 0 <= i < 3 && 0 <= j < 3 && (j < colOffset || (j == colOffset && i < rowOffset)) ==>
                    HasOffset(group, a, r0, c0, i, j)
        invariant Pristine(a) ==> group == if colOffset == 0 && rowOffset == 0 then {} else {a[r0, c0]}
      {
        ghost var before := group;
        group := Insert(group, a[r0 + rowOffset, c0 + colOffset]);
        forall i, j | 0 <= i < 3 && 0 <= j < 3 && (j < colOffset || (j == colOffset && i <= rowOffset))
          ensures HasOffset(group, a, r0, c0, i, j)
        {
          if i != rowOffset || j != colOffset {
            assert HasOffset(before, a, r0, c0, i, j);
            RepresentedGrows(before, group, a[r0 + i, c0 + j]);
          }
        }
        if Pristine(a) && (colOffset > 0 || rowOffset > 0) {
          FreshCellsEqual(a[r0, c0], a[r0 + rowOffset, c0 + colOffset]);
        }
      }
    }
    forall p | p in BlockCells(blockRow, blockCol)
      ensures Represented(group, a[p.row, p.col])
    {
      BlocksPartition(p, blockRow, blockCol);
      assert HasOffset(group, a, r0, c0, p.row - r0, p.col - c0);
    }
  }

  /** `group.forEach(c -> c.addNeighbours(group))`: each member gains only other members. */
  method WireGroup(group: set<Cell>)
    requires forall c :: c in group ==> c.Valid()
    modifies group
    ensures forall c :: c in group ==> c.Valid() && c.value == old(c.value)
    ensures forall c :: c in group ==> old(c.neighbours) <= c.neighbours <= old(c.neighbours) + (group - {c})
  {
    var rest := group;
    while rest != {}
      invariant rest <= group
      invariant forall c :: c in group ==> c.Valid() && c.value == old(c.value)
      invariant forall c :: c in group ==> old(c.neighbours) <= c.neighbours <= old(c.neighbours) + (group - {c})
      invariant forall c :: c in rest ==> c.neighbours == old(c.neighbours)
      decreases rest
    {
      var c :| c in rest;
      c.AddNeighbours(group);
      rest := rest - {c};
    }
  }

  /** The row loop of the constructor: every row group is one pristine cell, so wiring changes nothing. */
  method WireRows(a: array2<Cell>)
    requires a.Length0 == 9 && a.Length1 == 9 && Pristine(a)
    modifies CellsOf(a)
    ensures Pristine(a)
  {
    for row := 0 to 9
      invariant Pristine(a)
    {
      var allInRow := RowGroup(a, row);
      WireGroup(allInRow);
    }
  }

  /** The column loop of the constructor. */
  method WireCols(a: array2<Cell>)
    requires a.Length0 == 9 && a.Length1 == 9 && Pristine(a)
    modifies CellsOf(a)
    ensures Pristine(a)
  {
    for col := 0 to 9
      invariant Pristine(a)
    {
      var allInCol := ColGroup(a, col);
      WireGroup(allInCol);
    }
  }

  /** The block loops of the constructor, block column outermost. */
  method WireBlocks(a: array2<Cell>)
    requires a.Length0 == 9 && a.Length1 == 9 && Pristine(a)
    modifies CellsOf(a)
    ensures Pristine(a)
  {
    for blockCol := 0 to 3
      invariant Pristine(a)
    {
      for blockRow := 0 to 3
        invariant Pristine(a)
      {
        var allInBlock := BlockGroup(a, blockRow, blockCol);
        WireGroup(allInBlock);
      }
    }
  }

  /** The positions of block (blockRow, blockCol) as the constructor enumerates them. */
  function BlockCells(blockRow: int, blockCol: int): set<Position>
    requires 0 <= blockRow < 3 && 0 <= blockCol < 3
  {
    set i: int, j: int | 0 <= i < 3 && 0 <= j < 3 :: BlockOffsetCell(blockRow, blockCol, i, j)
  }

  /** The cell the constructor visits at offsets (rowOffset, colOffset) of a block. */
  function BlockOffsetCell(blockRow: int, blockCol: int, rowOffset: int, colOffset: int): Position
    requires 0 <= blockRow < 3 && 0 <= blockCol < 3 && 0 <= rowOffset < 3 && 0 <= colOffset < 3
  {
    Position(blockRow * 3 + rowOffset, blockCol * 3 + colOffset)
  }

  /** The nine block groups partition the grid: each position is in exactly the block of its own band indices. */
  lemma BlocksPartition(p: Position, blockRow: int, blockCol: int)
    requires 0 <= blockRow < 3 && 0 <= blockCol < 3
    ensures p in BlockCells(blockRow, blockCol) <==> blockRow == p.row / 3 && blockCol == p.col / 3
  {
    if blockRow == p.row / 3 && blockCol == p.col / 3 {
      assert p == BlockOffsetCell(blockRow, blockCol, p.row % 3, p.col % 3);
    }
    if p in BlockCells(blockRow, blockCol) {
      var i, j :| 0 <= i < 3 && 0 <= j < 3 && p == BlockOffsetCell(blockRow, blockCol, i, j);
      assert p.row == blockRow * 3 + i && p.col == blockCol * 3 + j;
    }
  }

  /** A block group is the position's `SameBlock` peers together with the position itself. */
  lemma BlockCellsAreBlock(p: Position)
    ensures forall q :: q in BlockCells(p.row / 3, p.col / 3) <==> SameBlock(p, q)
  {
    forall q
      ensures q in BlockCells(p.row / 3, p.col / 3) <==> SameBlock(p, q)
    {
      BlocksPartition(q, p.row / 3, p.col / 3);
    }
  }

  // ---------------------------------------------------------------------
  // Properties of `withValue` on values
  // ---------------------------------------------------------------------

  /** Re-setting the value a cell already holds passes the already-set test and changes nothing more. */
  lemma SetCellIdempotent(g: map<Position, int>, row: int, col: int, v: int)
    requires SetCell(g, row, col, v).Ok?
    ensures SetCell(SetCell(g, row, col, v).value, row, col, v) == SetCell(g, row, col, v)
  {
    var p := At(row, col).value;
    assert g[p := v][p := v] == g[p := v];
  }

  /** As written, a value already held in the same row is accepted: two 5s in row 0. */
  lemma SetCellAcceptsPeerConflict()
    ensures var g := map[Position(0, 0) := 5];
            SetCell(g, 0, 4, 5).Ok? && NoPeerConflict(g) && !NoPeerConflict(SetCell(g, 0, 4, 5).value)
  {
    var g := map[Position(0, 0) := 5];
    var h := SetCell(g, 0, 4, 5).value;
    InNeighbours(Position(0, 4), Position(0, 0));
    assert 5 in PeerValues(h, Position(0, 4));
    forall p | p in g
      ensures g[p] !in PeerValues(g, p)
    {
      NotOwnNeighbour(p);
    }
  }

  /** The intended check refuses that same assignment. */
  lemma SetCellCheckedRefusesPeerConflict()
    ensures SetCellChecked(map[Position(0, 0) := 5], 0, 4, 5) == Err(ConflictingNeighbourValue)
  {
    InNeighbours(Position(0, 4), Position(0, 0));
    assert 5 in PeerValues(map[Position(0, 0) := 5], Position(0, 4));
  }

  /** With the intended check, a board without peer conflicts never gains one. */
  lemma SetCellCheckedKeepsNoPeerConflict(g: map<Position, int>, row: int, col: int, v: int)
    requires NoPeerConflict(g) && SetCellChecked(g, row, col, v).Ok?
    ensures NoPeerConflict(SetCellChecked(g, row, col, v).value)
  {
    var p0 := At(row, col).value;
    var h := SetCellChecked(g, row, col, v).value;
    assert h == g[p0 := v];
    forall p | p in h
      ensures h[p] !in PeerValues(h, p)
    {
      forall q | q in Neighbours(p) && q in h
        ensures h[q] != h[p]
      {
        NeighbourSymmetric(p, q);
        NotOwnNeighbour(p);
        if p == p0 {
          assert g[q] in PeerValues(g, p0);
        } else if q == p0 {
          assert g[p] in PeerValues(g, p0);
        } else {
          assert g[q] in PeerValues(g, p);
        }
      }
    }
  }

  // ---------------------------------------------------------------------
  // Properties of `toString`
  // ---------------------------------------------------------------------

  /** Every value is a single decimal digit. */
  predicate SingleDigits(g: map<Position, int>) {
    forall p :: p in g ==> 0 <= g[p] <= 9
  }

  /** The character a cell shows: its digit or a dot. */
  function CellChar(g: map<Position, int>, p: Position): char
    requires SingleDigits(g)
  {
    if p in g then Digit(g[p]) else '.'
  }

  lemma CellPieceLayout(g: map<Position, int>, row: Index, col: Index)
    requires SingleDigits(g)
    ensures CellPiece(g, row, col) == [' ', CellChar(g, Position(row, col)), ' ', if col % 3 == 2 then '$' else '|']
  {
  }

  lemma {:induction false} LinePrefixLayout(g: map<Position, int>, row: Index, n: int)
    requires SingleDigits(g) && 0 <= n <= 9
    ensures |LinePrefix(g, row, n)| == 4 * n
    ensures forall c: Index, k :: c < n && 0 <= k < 4 ==> LinePrefix(g, row, n)[4 * c + k] == CellPiece(g, row, c)[k]
  {
    if n > 0 {
      LinePrefixLayout(g, row, n - 1);
      CellPieceLayout(g, row, n - 1);
      var before, piece := LinePrefix(g, row, n - 1), CellPiece(g, row, n - 1);
      assert LinePrefix(g, row, n) == before + piece;
      forall c: Index, k | c < n && 0 <= k < 4
        ensures LinePrefix(g, row, n)[4 * c + k] == CellPiece(g, row, c)[k]
      {
        if c < n - 1 {
          assert (before + piece)[4 * c + k] == before[4 * c + k];
        } else {
          assert (before + piece)[4 * c + k] == piece[k];
        }
      }
    }
  }

  /** One line: `$`, nine cell pieces, a newline. */
  lemma LineLayout(g: map<Position, int>, row: Index)
    requires SingleDigits(g)
    ensures |Line(g, row)| == 38
    ensures Line(g, row)[0] == '$' && Line(g, row)[37] == '\n'
    ensures forall c: Index, k :: 0 <= k < 4 ==> Line(g, row)[4 * c + 1 + k] == CellPiece(g, row, c)[k]
  {
    LinePrefixLayout(g, row, 9);
    var body := LinePrefix(g, row, 9);
    assert Line(g, row) == "$" + body + "\n";
    forall c: Index, k | 0 <= k < 4
      ensures Line(g, row)[4 * c + 1 + k] == CellPiece(g, row, c)[k]
    {
      assert ("$" + body + "\n")[4 * c + 1 + k] == body[4 * c + k];
    }
  }

  lemma {:induction false} LinesLength(g: map<Position, int>, n: int)
    requires SingleDigits(g) && 0 <= n <= 9
    ensures |Lines(g, n)| == 38 * n
  {
    if n > 0 {
      LinesLength(g, n - 1);
      LineLayout(g, n - 1);
    }
  }

  /** Character k of line r sits at offset 38r + k of the first n lines. */
  lemma {:induction false} LinesChar(g: map<Position, int>, n: int, r: Index, k: int)
    requires SingleDigits(g) && r < n <= 9 && 0 <= k < 38
    ensures |Line(g, r)| == 38 && 38 * r + k < |Lines(g, n)|
    ensures Lines(g, n)[38 * r + k] == Line(g, r)[k]
  {
    LinesLength(g, n - 1);
    LinesLength(g, n);
    LineLayout(g, r);
    LineLayout(g, n - 1);
    var before, line := Lines(g, n - 1), Line(g, n - 1);
    assert Lines(g, n) == before + line;
    if r < n - 1 {
      LinesChar(g, n - 1, r, k);
      assert (before + line)[38 * r + k] == before[38 * r + k];
    } else {
      assert (before + line)[38 * r + k] == line[k];
    }
  }

  /**
   * The `toString` layout for single-digit values: nine lines of 38
   * characters, 342 in all; line r starts with `$` and ends with a newline,
   * and cell (r, c) shows at offset 4c+2 its digit or a dot, between spaces,
   * followed by `$` after every third cell and `|` otherwise.
   */
  lemma RenderLayout(g: map<Position, int>)
    requires SingleDigits(g)
    ensures |Render(g)| == 342
    ensures forall r :: 0 <= r < 9 ==> Render(g)[38 * r] == '$' && Render(g)[38 * r + 37] == '\n'
    ensures forall r: Index, c: Index ::
              && Render(g)[38 * r + 4 * c + 1] == ' '
              && Render(g)[38 * r + 4 * c + 2] == CellChar(g, Position(r, c))
              && Render(g)[38 * r + 4 * c + 3] == ' '
              && Render(g)[38 * r + 4 * c + 4] == (if c % 3 == 2 then '$' else '|')
  {
    LinesLength(g, 9);
    forall r: Index
      ensures Render(g)[38 * r] == '$' && Render(g)[38 * r + 37] == '\n'
    {
      RenderEnds(g, r);
    }
    forall r: Index, c: Index
      ensures && Render(g)[38 * r + 4 * c + 1] == ' '
              && Render(g)[38 * r + 4 * c + 2] == CellChar(g, Position(r, c))
              && Render(g)[38 * r + 4 * c + 3] == ' '
              && Render(g)[38 * r + 4 * c + 4] == (if c % 3 == 2 then '$' else '|')
    {
      RenderCell(g, r, c);
    }
  }

  /** Line r of `toString` starts with `$` and ends with a newline. */
  lemma RenderEnds(g: map<Position, int>, r: Index)
    requires SingleDigits(g)
    ensures 38 * r + 37 < |Render(g)|
    ensures Render(g)[38 * r] == '$' && Render(g)[38 * r + 37] == '\n'
  {
    LineLayout(g, r);
    LinesChar(g, 9, r, 0);
    LinesChar(g, 9, r, 37);
  }

  /** Cell (r, c) of `toString`: a space, its digit or a dot, a space, then the separator. */
  lemma RenderCell(g: map<Position, int>, r: Index, c: Index)
    requires SingleDigits(g)
    ensures 38 * r + 4 * c + 4 < |Render(g)|
    ensures && Render(g)[38 * r + 4 * c + 1] == ' '
            && Render(g)[38 * r + 4 * c + 2] == CellChar(g, Position(r, c))
            && Render(g)[38 * r + 4 * c + 3] == ' '
            && Render(g)[38 * r + 4 * c + 4] == (if c % 3 == 2 then '$' else '|')
  {
    LineLayout(g, r);
    CellPieceLayout(g, r, c);
    LinesChar(g, 9, r, 4 * c + 1);
    LinesChar(g, 9, r, 4 * c + 2);
    LinesChar(g, 9, r, 4 * c + 3);
    LinesChar(g, 9, r, 4 * c + 4);
    var piece := CellPiece(g, r, c);
    assert Line(g, r)[4 * c + 1 + 0] == piece[0];
    assert Line(g, r)[4 * c + 1 + 1] == piece[1];
    assert Line(g, r)[4 * c + 1 + 2] == piece[2];
    assert Line(g, r)[4 * c + 1 + 3] == piece[3];
  }

  /** In `toString`, a cell without a value shows a dot; on `empty()` every cell does. */
  lemma UnsetCellShowsDot(g: map<Position, int>, r: Index, c: Index)
    requires SingleDigits(g) && Position(r, c) !in g
    ensures 38 * r + 4 * c + 2 < |Render(g)| && Render(g)[38 * r + 4 * c + 2] == '.'
  {
    RenderCell(g, r, c);
  }
}

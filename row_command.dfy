/**
 * `RowCommand.row`: set the values of one row from a string of characters,
 * one character per column, on the board held by the shell session.
 *
 * Each character `c` becomes `value = c - '1'`; the guard
 * `0 < value <= 9` lets through '2'..'9' and ':', and the board gets
 * `Value.values()[value]` at column = the character's index. So '1' is never
 * set, and ':' indexes past the end of `Value.values()`. `DecodeAsWritten`
 * is that reading; `DecodeIntended` reads '1'..'9' as the values 1..9.
 */
module RowCommand {
  import opened Util
  import opened Grid
  import opened Boards

  /** How `row` can end without a board. */
  datatype RowError =
    | IndexOutOfBounds  // `Position.at(row, col)` or `Value.values()[value]` out of bounds
    | AlreadySet        // `ValueAlreadySetException` from `withValue`

  /** What one character asks of the board. */
  datatype Effect =
    | Skip                // the guard is false: nothing happens
    | Put(value: Value)   // `withValue` with this value
    | NoSuchValue         // the guard is true but `Value.values()[value]` is out of bounds

  /** The guard and the lookup of the loop body, as written. */
  function DecodeAsWritten(c: char): (e: Effect)
    ensures e == Skip <==> !('2' <= c <= ':')
    ensures e.Put? <==> '2' <= c <= '9'
    ensures e.Put? ==> e.value == c as int - '0' as int
    ensures e == NoSuchValue <==> c == ':'
  {
    var value := c as int - '1' as int;
    if 0 < value <= 9 then
      match ValueAt(value)
      case Some(v) => Put(v)
      case None => NoSuchValue
    else Skip
  }

  /** The evidently intended reading: '1'..'9' are the values 1..9, every other character is skipped. */
  function DecodeIntended(c: char): (e: Effect)
    ensures e.Put? <==> '1' <= c <= '9'
    ensures e.Put? ==> e.value == c as int - '0' as int
    ensures e != NoSuchValue
  {
    var value := c as int - '1' as int;
    if 0 <= value < 9 then
      match ValueAt(value)
      case Some(v) => Put(v)
      case None => NoSuchValue
    else Skip
  }

  /** The loop from column `col` on, with `b` the board so far. */
  function RowFrom(decode: char -> Effect, b: Board, row: int, s: string, col: int): Result<Board, RowError>
    requires 0 <= col <= |s|
    decreases |s| - col
  {
    if col == |s| then Ok(b)
    else
      match decode(s[col])
      case Skip => RowFrom(decode, b, row, s, col + 1)
      case NoSuchValue => Err(IndexOutOfBounds)
      case Put(v) =>
        match At(row, col)
        case None => Err(IndexOutOfBounds)
        case Some(p) =>
          match WithValue(b, p, v)
          case Err(_) => Err(AlreadySet)
          case Ok(next) => RowFrom(decode, next, row, s, col + 1)
  }

  /** `row(row, rowValue)` with a given reading of the characters: a string over 9 characters changes nothing. */
  function RowWith(decode: char -> Effect, b: Board, row: int, s: string): Result<Board, RowError> {
    if |s| <= 9 then RowFrom(decode, b, row, s, 0) else Ok(b)
  }

  /** `row(row, rowValue)` as written. */
  function RowAsWritten(b: Board, row: int, s: string): Result<Board, RowError> {
    RowWith(DecodeAsWritten, b, row, s)
  }

  /** `row(row, rowValue)` as intended. */
  function RowIntended(b: Board, row: int, s: string): Result<Board, RowError> {
    RowWith(DecodeIntended, b, row, s)
  }

  /**
   * The loop of `row`: `col` advances once per character, and `withValue`
   * is called only for characters that pass the guard.
   */
  method Row(board: Board, row: int, rowValue: string) returns (r: Result<Board, RowError>)
    ensures r == RowAsWritten(board, row, rowValue)
  {
    var b := board;
    if |rowValue| <= 9 {
      var col := 0;
      for i := 0 to |rowValue|
        invariant col == i
        invariant RowFrom(DecodeAsWritten, b, row, rowValue, i) == RowAsWritten(board, row, rowValue)
      {
        var value := rowValue[i] as int - '1' as int;
        if 0 < value && value <= 9 {
          if !(0 <= row < 9 && 0 <= col < 9) {
            return Err(IndexOutOfBounds);
          }
          if value >= |AllValues| {
            return Err(IndexOutOfBounds);
          }
          var next := WithValue(b, Position(row, col), AllValues[value]);
          if next.Err? {
            return Err(AlreadySet);
          }
          b := next.value;
        }
        col := col + 1;
      }
    }
    return Ok(b);
  }

  // ---------------------------------------------------------------------
  // What the loop does
  // ---------------------------------------------------------------------

  /** The values characters from column `col` on put into row `row`. */
  function PutsFrom(decode: char -> Effect, row: Index, s: string, col: int): map<Position, Value> {
    map p: Position | p in AllPositions() && p.row == row && col <= p.col < |s| && decode(s[p.col]).Put? :: decode(s[p.col]).value
  }

  /** Each character that puts a value finds its cell free or already holding that value. */
  ghost predicate Compatible(decode: char -> Effect, b: Board, row: Index, s: string, col: int) {
    forall i :: 0 <= i && col <= i < |s| && i < 9 && decode(s[i]).Put? && Position(row, i) in b.assignment ==>
      b.assignment[Position(row, i)] == decode(s[i]).value
  }

  /** The characters from `col` on that would stop the loop with an index error. */
  ghost predicate HasBadChar(decode: char -> Effect, row: int, s: string, col: int) {
    exists i :: 0 <= i && col <= i < |s| && (decode(s[i]) == NoSuchValue || (decode(s[i]).Put? && !(0 <= row < 9)))
  }

  /** One column more: the puts from `col` are those from `col + 1` plus the one at `col`, if any. */
  lemma PutsStep(decode: char -> Effect, row: Index, s: string, col: int)
    requires 0 <= col < |s| <= 9
    ensures Position(row, col) !in PutsFrom(decode, row, s, col + 1)
    ensures PutsFrom(decode, row, s, col) ==
              if decode(s[col]).Put? then PutsFrom(decode, row, s, col + 1)[Position(row, col) := decode(s[col]).value]
              else PutsFrom(decode, row, s, col + 1)
  {
  }

  /** A character that puts v at (row, col): the set succeeds, and the rest stays compatible. */
  lemma PutStep(decode: char -> Effect, b: Board, row: Index, s: string, col: int)
    requires 0 <= col < |s| <= 9 && decode(s[col]).Put? && Compatible(decode, b, row, s, col)
    ensures var p, v := Position(row, col), decode(s[col]).value;
            && WithValue(b, p, v) == Ok(Board(b.assignment[p := v]))
            && Compatible(decode, Board(b.assignment[p := v]), row, s, col + 1)
            && b.assignment[p := v] + PutsFrom(decode, row, s, col + 1) == b.assignment + PutsFrom(decode, row, s, col)
  {
    PutsStep(decode, row, s, col);
  }

  /**
   * With a row in range, no character that stops the loop and every put
   * compatible with the board, the loop from `col` on ends with the board
   * plus exactly the values the characters put.
   */
  lemma {:induction false} RowFromSpec(decode: char -> Effect, b: Board, row: Index, s: string, col: int)
    requires 0 <= col <= |s| <= 9
    requires !HasBadChar(decode, row, s, col) && Compatible(decode, b, row, s, col)
    ensures RowFrom(decode, b, row, s, col) == Ok(Board(b.assignment + PutsFrom(decode, row, s, col)))
    decreases |s| - col
  {
    if col == |s| {
      assert PutsFrom(decode, row, s, col) == map[];
      assert b.assignment + map[] == b.assignment;
    } else {
      assert decode(s[col]) != NoSuchValue;
      if decode(s[col]).Skip? {
        PutsStep(decode, row, s, col);
        RowFromSpec(decode, b, row, s, col + 1);
      } else {
        var v := decode(s[col]).value;
        var p := Position(row, col);
        assert At(row, col) == Some(p);
        PutStep(decode, b, row, s, col);
        RowFromSpec(decode, Board(b.assignment[p := v]), row, s, col + 1);
      }
    }
  }

  /** A character that stops the loop, anywhere in the string, makes the whole call fail. */
  lemma {:induction false} RowFromFails(decode: char -> Effect, b: Board, row: int, s: string, col: int)
    requires 0 <= col <= |s| && HasBadChar(decode, row, s, col)
    ensures RowFrom(decode, b, row, s, col).Err?
    decreases |s| - col
  {
    var i :| 0 <= i && col <= i < |s| && (decode(s[i]) == NoSuchValue || (decode(s[i]).Put? && !(0 <= row < 9)));
    if i > col && decode(s[col]) != NoSuchValue {
      if decode(s[col]).Skip? {
        RowFromFails(decode, b, row, s, col + 1);
      } else if At(row, col).Some? {
        var next := WithValue(b, At(row, col).value, decode(s[col]).value);
        if next.Ok? {
          RowFromFails(decode, next.value, row, s, col + 1);
        }
      }
    }
  }

  /**
   * A put that meets a cell holding a different value, with nothing that
   * stops the loop on an index, ends the call with `ValueAlreadySetException`.
   */
  lemma {:induction false} RowFromIncompatible(decode: char -> Effect, b: Board, row: Index, s: string, col: int)
    requires 0 <= col <= |s| <= 9
    requires !HasBadChar(decode, row, s, col) && !Compatible(decode, b, row, s, col)
    ensures RowFrom(decode, b, row, s, col) == Err(AlreadySet)
    decreases |s| - col
  {
    var i :| 0 <= i && col <= i < |s| && i < 9 && decode(s[i]).Put? && Position(row, i) in b.assignment &&
             b.assignment[Position(row, i)] != decode(s[i]).value;
    assert decode(s[col]) != NoSuchValue;
    if i == col {
      assert At(row, col) == Some(Position(row, col));
    } else if decode(s[col]).Skip? {
      RowFromIncompatible(decode, b, row, s, col + 1);
    } else {
      var p := Position(row, col);
      assert At(row, col) == Some(p);
      var next := WithValue(b, p, decode(s[col]).value);
      if next.Ok? {
        assert next.value.assignment[Position(row, i)] == b.assignment[Position(row, i)];
        RowFromIncompatible(decode, next.value, row, s, col + 1);
      }
    }
  }

  /** On a row outside 0..8 with nothing that stops the loop, no character puts a value: the board is unchanged. */
  lemma {:induction false} RowFromOffGrid(decode: char -> Effect, b: Board, row: int, s: string, col: int)
    requires 0 <= col <= |s| && !(0 <= row < 9) && !HasBadChar(decode, row, s, col)
    ensures RowFrom(decode, b, row, s, col) == Ok(b)
    decreases |s| - col
  {
    if col < |s| {
      assert decode(s[col]).Skip?;
      RowFromOffGrid(decode, b, row, s, col + 1);
    }
  }

  /**
   * When `row` succeeds: the string is over 9 characters, or nothing stops
   * the loop on an index and every put fits the board. Otherwise it fails,
   * and with nothing stopping it on an index it fails with `AlreadySet`.
   */
  lemma RowWithOutcome(decode: char -> Effect, b: Board, row: int, s: string)
    ensures RowWith(decode, b, row, s).Ok? <==>
              |s| > 9 || (!HasBadChar(decode, row, s, 0) && (0 <= row < 9 ==> Compatible(decode, b, row, s, 0)))
    ensures |s| <= 9 && !HasBadChar(decode, row, s, 0) && 0 <= row < 9 && !Compatible(decode, b, row, s, 0) ==>
              RowWith(decode, b, row, s) == Err(AlreadySet)
  {
    if |s| <= 9 {
      if HasBadChar(decode, row, s, 0) {
        RowFromFails(decode, b, row, s, 0);
      } else if !(0 <= row < 9) {
        RowFromOffGrid(decode, b, row, s, 0);
      } else if Compatible(decode, b, row, s, 0) {
        RowFromSpec(decode, b, row, s, 0);
      } else {
        RowFromIncompatible(decode, b, row, s, 0);
      }
    }
  }

  // ---------------------------------------------------------------------
  // The command as written
  // ---------------------------------------------------------------------

  /** A string over 9 characters leaves the board unchanged. */
  lemma RowTooLong(b: Board, row: int, s: string)
    requires |s| > 9
    ensures RowAsWritten(b, row, s) == Ok(b) && RowIntended(b, row, s) == Ok(b)
  {
  }

  /**
   * As written, on a row in range, a string without ':' whose digits fit
   * the board sets column i to the digit at index i for every character
   * '2'..'9', and leaves every other cell as it was: '1', '0' and any other
   * character change nothing.
   */
  lemma RowAsWrittenSets(b: Board, row: Index, s: string)
    requires |s| <= 9 && forall i :: 0 <= i < |s| ==> s[i] != ':'
    requires forall i :: 0 <= i < |s| && '2' <= s[i] <= '9' && Position(row, i) in b.assignment ==>
               b.assignment[Position(row, i)] == s[i] as int - '0' as int
    ensures RowAsWritten(b, row, s).Ok?
    ensures forall p :: p in RowAsWritten(b, row, s).value.assignment <==>
              p in b.assignment || (p.row == row && p.col < |s| && '2' <= s[p.col] <= '9')
    ensures forall p :: p in RowAsWritten(b, row, s).value.assignment ==>
              RowAsWritten(b, row, s).value.assignment[p] ==
                if p.row == row && p.col < |s| && '2' <= s[p.col] <= '9' then s[p.col] as int - '0' as int
                else b.assignment[p]
  {
    RowFromSpec(DecodeAsWritten, b, row, s, 0);
  }

  /** As written, a ':' in a string of at most 9 characters makes the call fail. */
  lemma RowAsWrittenColonFails(b: Board, row: int, s: string)
    requires |s| <= 9 && exists i :: 0 <= i < |s| && s[i] == ':'
    ensures RowAsWritten(b, row, s).Err?
  {
    RowFromFails(DecodeAsWritten, b, row, s, 0);
  }

  /** The discrepancy: as written, "1" sets nothing and ":" fails; as intended, "1" sets the value 1. */
  lemma RowDigitOneIgnored()
    ensures RowAsWritten(Empty(), 0, "1") == Ok(Empty())
    ensures RowIntended(Empty(), 0, "1") == Ok(Board(map[Position(0, 0) := 1]))
    ensures RowAsWritten(Empty(), 0, ":") == Err(IndexOutOfBounds)
  {
    var one := Board(map[Position(0, 0) := 1]);
    assert WithValue(Empty(), Position(0, 0), 1) == Ok(one);
    assert RowFrom(DecodeIntended, one, 0, "1", 1) == Ok(one);
  }

  // ---------------------------------------------------------------------
  // The command as intended
  // ---------------------------------------------------------------------

  /**
   * As intended, on a row in range, a string whose digits fit the board sets
   * column i to the digit at index i for every character '1'..'9', never
   * fails on an index, and leaves every other cell as it was.
   */
  lemma RowIntendedSets(b: Board, row: Index, s: string)
    requires |s| <= 9
    requires forall i :: 0 <= i < |s| && '1' <= s[i] <= '9' && Position(row, i) in b.assignment ==>
               b.assignment[Position(row, i)] == s[i] as int - '0' as int
    ensures RowIntended(b, row, s).Ok?
    ensures forall p :: p in RowIntended(b, row, s).value.assignment <==>
              p in b.assignment || (p.row == row && p.col < |s| && '1' <= s[p.col] <= '9')
    ensures forall p :: p in RowIntended(b, row, s).value.assignment ==>
              RowIntended(b, row, s).value.assignment[p] ==
                if p.row == row && p.col < |s| && '1' <= s[p.col] <= '9' then s[p.col] as int - '0' as int
                else b.assignment[p]
  {
    RowFromSpec(DecodeIntended, b, row, s, 0);
  }
}

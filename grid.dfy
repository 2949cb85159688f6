/**
 * The fixed 9x9 topology of `Position`: the 81 canonical coordinates and the
 * peer ("neighbour") relation between them.
 */
module Grid {
  import opened Util

  /** A row or column index of the grid. */
  type Index = i: int | 0 <= i < 9

  /** A canonical coordinate; Lombok's `@Data` makes positions equal by (row, col). */
  datatype Position = Position(row: Index, col: Index)

  /** `ALL_POSITIONS`: every coordinate of the 9x9 grid. */
  function AllPositions(): set<Position> {
    set r: int, c: int | 0 <= r < 9 && 0 <= c < 9 :: Position(r, c)
  }

  /** The first row (or column) of the 3x3 block that contains index `i`. */
  function BlockOrigin(i: Index): (o: Index)
    ensures o % 3 == 0 && o <= i < o + 3 && o <= 6
  {
    (i / 3) * 3
  }

  predicate SameBlock(p: Position, q: Position) {
    BlockOrigin(p.row) == BlockOrigin(q.row) && BlockOrigin(p.col) == BlockOrigin(q.col)
  }

  /** q is a peer of p: it shares p's row, column or block and is not p itself. */
  predicate IsPeer(p: Position, q: Position) {
    q != p && (q.row == p.row || q.col == p.col || SameBlock(p, q))
  }

  /** The peers of `p`, as `getNeighbours` should compute them. */
  function Neighbours(p: Position): set<Position> {
    set q | q in AllPositions() && IsPeer(p, q)
  }

  /** `Position.at`: the canonical position, or None where the array lookup is out of bounds. */
  function At(row: int, col: int): (r: Option<Position>)
    ensures r.Some? <==> 0 <= row < 9 && 0 <= col < 9
    ensures r.Some? ==> r.value.row == row && r.value.col == col
  {
    if 0 <= row < 9 && 0 <= col < 9 then Some(Position(row, col)) else None
  }

  /** The static initializer: fills `POSITIONS` row by row and collects `ALL_POSITIONS`. */
  method InitPositions() returns (positions: array2<Position>, all: set<Position>)
    ensures fresh(positions) && positions.Length0 == 9 && positions.Length1 == 9
    ensures forall r, c :: 0 <= r < 9 && 0 <= c < 9 ==> At(r, c) == Some(positions[r, c])
    ensures all == AllPositions()
  {
    positions := new Position[9, 9];
    all := {};
    for row := 0 to 9
      invariant forall r, c :: 0 <= r < row && 0 <= c < 9 ==> positions[r, c] == Position(r, c)
      invariant all == set r: int, c: int | 0 <= r < row && 0 <= c < 9 :: Position(r, c)
    {
      ghost var before := all;
      for col := 0 to 9
        invariant forall r, c :: 0 <= r < row && 0 <= c < 9 ==> positions[r, c] == Position(r, c)
        invariant forall c :: 0 <= c < col ==> positions[row, c] == Position(row, c)
        invariant all == before + set c: int | 0 <= c < col :: Position(row, c)
      {
        var position := Position(row, col);
        all := all + {position};
        positions[row, col] := position;
      }
    }
  }

  /** `getNeighbours`: adds the row, the column and the block of `p` in one loop, then removes `p`. */
  method ComputeNeighbours(p: Position) returns (neighbours: set<Position>)
    ensures neighbours == Neighbours(p)
  {
    var blockRow := BlockOrigin(p.row);
    var blockCol := BlockOrigin(p.col);
    neighbours := {};
    for i := 0 to 9
      invariant neighbours == SourceUnion(p, i)
    {
      var inRow, inCol, inBlock := Position(p.row, i), Position(i, p.col), Position(blockRow + i / 3, blockCol + i % 3);
      ghost var before := neighbours;
      neighbours := neighbours + {inRow};
      neighbours := neighbours + {inCol};
      neighbours := neighbours + {inBlock};
      SourceUnionStep(p, i, before, inRow, inCol, inBlock);
    }
    SourceUnionIsPeers(p);
    neighbours := neighbours - {p};
  }

  /** Every position is one of the 81. */
  lemma InAllPositions(p: Position)
    ensures p in AllPositions()
  {
    assert p == Position(p.row, p.col);
  }

  lemma InNeighbours(p: Position, q: Position)
    ensures q in Neighbours(p) <==> IsPeer(p, q)
  {
    InAllPositions(q);
  }

  /** What the first `n` rounds of `getNeighbours`' loop have added. */
  ghost function SourceUnion(p: Position, n: int): set<Position>
    requires 0 <= n <= 9
  {
    RowPrefix(p.row, -1, n) + ColPrefix(p.col, -1, n) + BlockPrefix(p, n)
  }

  /** The first `n` cells of row `r`, leaving out column `skip`. */
  ghost function RowPrefix(r: Index, skip: int, n: int): set<Position>
    requires 0 <= n <= 9
  {
    set j | 0 <= j < n && j != skip :: Position(r, j)
  }

  /** The first `n` cells of column `c`, leaving out row `skip`. */
  ghost function ColPrefix(c: Index, skip: int, n: int): set<Position>
    requires 0 <= n <= 9
  {
    set i | 0 <= i < n && i != skip :: Position(i, c)
  }

  /** Member `i` of p's block in the loop's order, (blockRow + i/3, blockCol + i%3). */
  ghost function BlockMember(p: Position, i: int): Position
    requires 0 <= i < 9
  {
    Position(BlockOrigin(p.row) + i / 3, BlockOrigin(p.col) + i % 3)
  }

  /** The first `n` members of p's block in the loop's order. */
  ghost function BlockPrefix(p: Position, n: int): set<Position>
    requires 0 <= n <= 9
  {
    set i | 0 <= i < n :: BlockMember(p, i)
  }

  lemma SourceUnionStep(p: Position, i: int, acc: set<Position>, inRow: Position, inCol: Position, inBlock: Position)
    requires 0 <= i < 9 && acc == SourceUnion(p, i)
    requires inRow == Position(p.row, i) && inCol == Position(i, p.col)
    requires inBlock == BlockMember(p, i)
    ensures acc + {inRow} + {inCol} + {inBlock} == SourceUnion(p, i + 1)
  {
    var rows, cols, block := RowPrefix(p.row, -1, i), ColPrefix(p.col, -1, i), BlockPrefix(p, i);
    RowPrefixStep(p.row, i);
    ColPrefixStep(p.col, i);
    BlockPrefixStep(p, i, inBlock);
    forall q
      ensures q in rows + cols + block + {inRow} + {inCol} + {inBlock}
          <==> q in (rows + {inRow}) + (cols + {inCol}) + (block + {inBlock})
    {
    }
  }

  lemma RowPrefixStep(r: Index, i: int)
    requires 0 <= i < 9
    ensures RowPrefix(r, -1, i + 1) == RowPrefix(r, -1, i) + {Position(r, i)}
  {
    forall q
      ensures q in RowPrefix(r, -1, i + 1) <==> q in RowPrefix(r, -1, i) + {Position(r, i)}
    {
      RowPrefixMember(r, -1, i + 1, q);
      RowPrefixMember(r, -1, i, q);
    }
  }

  lemma ColPrefixStep(c: Index, i: int)
    requires 0 <= i < 9
    ensures ColPrefix(c, -1, i + 1) == ColPrefix(c, -1, i) + {Position(i, c)}
  {
    forall q
      ensures q in ColPrefix(c, -1, i + 1) <==> q in ColPrefix(c, -1, i) + {Position(i, c)}
    {
      ColPrefixMember(c, -1, i + 1, q);
      ColPrefixMember(c, -1, i, q);
    }
  }

  lemma BlockPrefixStep(p: Position, i: int, inBlock: Position)
    requires 0 <= i < 9
    requires inBlock == BlockMember(p, i)
    ensures BlockPrefix(p, i + 1) == BlockPrefix(p, i) + {inBlock}
  {
    forall q | q in BlockPrefix(p, i + 1)
      ensures q in BlockPrefix(p, i) + {inBlock}
    {
      var j :| 0 <= j < i + 1 && q == BlockMember(p, j);
      if j < i {
        assert q in BlockPrefix(p, i);
      }
    }
    assert inBlock in BlockPrefix(p, i + 1);
  }

  /** Block member `i` of the loop ranges over exactly p's block. */
  lemma BlockEnumeration(p: Position, q: Position)
    ensures SameBlock(p, q) <==> q in BlockPrefix(p, 9)
  {
    var br, bc := BlockOrigin(p.row), BlockOrigin(p.col);
    if SameBlock(p, q) {
      var i := (q.row - br) * 3 + (q.col - bc);
      assert 0 <= i < 9 && i / 3 == q.row - br && i % 3 == q.col - bc;
      assert q == BlockMember(p, i);
    }
  }

  lemma SourceUnionIsPeers(p: Position)
    ensures SourceUnion(p, 9) - {p} == Neighbours(p)
  {
    forall q
      ensures q in SourceUnion(p, 9) - {p} <==> q in Neighbours(p)
    {
      BlockEnumeration(p, q);
      InNeighbours(p, q);
      if q.row == p.row {
        assert q == Position(p.row, q.col);
      }
      if q.col == p.col {
        assert q == Position(q.row, p.col);
      }
    }
  }

  /** p is never its own neighbour (the final `remove`). */
  lemma NotOwnNeighbour(p: Position)
    ensures p !in Neighbours(p)
  {
  }

  /** The relation is symmetric. */
  lemma NeighbourSymmetric(p: Position, q: Position)
    ensures q in Neighbours(p) <==> p in Neighbours(q)
  {
    InNeighbours(p, q);
    InNeighbours(q, p);
  }

  /** The two indices other than `x` in x's band of three. */
  function OtherTwo(x: Index): (r: (Index, Index))
    ensures r.0 != x && r.1 != x && r.0 != r.1
    ensures BlockOrigin(r.0) == BlockOrigin(x) && BlockOrigin(r.1) == BlockOrigin(x)
    ensures forall y: Index :: BlockOrigin(y) == BlockOrigin(x) ==> y == x || y == r.0 || y == r.1
  {
    var o := BlockOrigin(x);
    if x == o then (o + 1, o + 2) else if x == o + 1 then (o, o + 2) else (o, o + 1)
  }

  lemma {:induction false} RowPrefixCard(r: Index, skip: int, n: int)
    requires 0 <= n <= 9
    ensures |RowPrefix(r, skip, n)| == if 0 <= skip < n then n - 1 else n
  {
    if n == 0 {
      assert RowPrefix(r, skip, n) == {};
    } else {
      RowPrefixCard(r, skip, n - 1);
      if n - 1 == skip {
        assert RowPrefix(r, skip, n) == RowPrefix(r, skip, n - 1);
      } else {
        assert RowPrefix(r, skip, n) == RowPrefix(r, skip, n - 1) + {Position(r, n - 1)};
      }
    }
  }

  lemma {:induction false} ColPrefixCard(c: Index, skip: int, n: int)
    requires 0 <= n <= 9
    ensures |ColPrefix(c, skip, n)| == if 0 <= skip < n then n - 1 else n
  {
    if n == 0 {
      assert ColPrefix(c, skip, n) == {};
    } else {
      ColPrefixCard(c, skip, n - 1);
      if n - 1 == skip {
        assert ColPrefix(c, skip, n) == ColPrefix(c, skip, n - 1);
      } else {
        assert ColPrefix(c, skip, n) == ColPrefix(c, skip, n - 1) + {Position(n - 1, c)};
      }
    }
  }

  /** The first `n` rows of the grid. */
  ghost function Rows(n: int): set<Position>
    requires 0 <= n <= 9
  {
    set r: int, c: int | 0 <= r < n && 0 <= c < 9 :: Position(r, c)
  }

  lemma {:induction false} RowsCard(n: int)
    requires 0 <= n <= 9
    ensures |Rows(n)| == 9 * n
  {
    if n == 0 {
      assert Rows(n) == {};
    } else {
      RowsCard(n - 1);
      RowPrefixCard(n - 1, -1, 9);
      assert Rows(n) == Rows(n - 1) + RowPrefix(n - 1, -1, 9);
      assert Rows(n - 1) * RowPrefix(n - 1, -1, 9) == {};
    }
  }

  /** `ALL_POSITIONS` holds exactly 81 distinct positions. */
  lemma AllPositionsCount()
    ensures |AllPositions()| == 81
  {
    RowsCard(9);
    assert AllPositions() == Rows(9);
  }

  lemma RowPrefixMember(r: Index, skip: int, n: int, q: Position)
    requires 0 <= n <= 9
    ensures q in RowPrefix(r, skip, n) <==> q.row == r && q.col < n && q.col != skip
  {
    if q.row == r {
      assert q == Position(r, q.col);
    }
  }

  lemma ColPrefixMember(c: Index, skip: int, n: int, q: Position)
    requires 0 <= n <= 9
    ensures q in ColPrefix(c, skip, n) <==> q.col == c && q.row < n && q.row != skip
  {
    if q.col == c {
      assert q == Position(q.row, c);
    }
  }

  /** The four cells of p's block that share neither p's row nor p's column. */
  ghost function BlockCorners(p: Position): set<Position> {
    var (r1, r2) := OtherTwo(p.row);
    var (c1, c2) := OtherTwo(p.col);
    {Position(r1, c1), Position(r1, c2), Position(r2, c1), Position(r2, c2)}
  }

  lemma BlockCornersSpec(p: Position)
    ensures |BlockCorners(p)| == 4
    ensures forall q :: q in BlockCorners(p) <==> SameBlock(p, q) && q.row != p.row && q.col != p.col
  {
    var (r1, r2) := OtherTwo(p.row);
    var (c1, c2) := OtherTwo(p.col);
    assert BlockCorners(p) == {Position(r1, c1), Position(r1, c2), Position(r2, c1), Position(r2, c2)};
  }

  /** A neighbour shares the row, or else the column, or else lies in a block corner. */
  lemma NeighbourParts(p: Position)
    ensures Neighbours(p) == RowPrefix(p.row, p.col, 9) + ColPrefix(p.col, p.row, 9) + BlockCorners(p)
  {
    BlockCornersSpec(p);
    forall q
      ensures q in Neighbours(p) <==> q in RowPrefix(p.row, p.col, 9) + ColPrefix(p.col, p.row, 9) + BlockCorners(p)
    {
      InNeighbours(p, q);
      RowPrefixMember(p.row, p.col, 9, q);
      ColPrefixMember(p.col, p.row, 9, q);
    }
  }

  /** Every position has exactly 20 neighbours: 8 in its row, 8 in its column, 4 more in its block. */
  lemma NeighbourCount(p: Position)
    ensures |Neighbours(p)| == 20
  {
    var rowPart, colPart, blockPart := RowPrefix(p.row, p.col, 9), ColPrefix(p.col, p.row, 9), BlockCorners(p);
    NeighbourParts(p);
    BlockCornersSpec(p);
    RowPrefixCard(p.row, p.col, 9);
    ColPrefixCard(p.col, p.row, 9);
    forall q | q in rowPart + colPart
      ensures q !in blockPart && (q in rowPart ==> q !in colPart)
    {
      RowPrefixMember(p.row, p.col, 9, q);
      ColPrefixMember(p.col, p.row, 9, q);
    }
    DisjointUnionCard(rowPart, colPart, blockPart);
  }

  lemma DisjointUnionCard(a: set<Position>, b: set<Position>, c: set<Position>)
    requires forall q :: q in a + b ==> q !in c && (q in a ==> q !in b)
    ensures |a + b + c| == |a| + |b| + |c|
  {
    assert a * b == {};
    assert (a + b) * c == {};
  }
}

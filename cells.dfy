/**
 * `Cell`: a mutable optional value and a mutable set of neighbouring cells.
 *
 * Lombok's `@Data` gives `Cell` structural `equals`/`hashCode` over
 * (value, neighbours), so a `HashSet<Cell>` keeps a cell only when no equal
 * cell is in it yet. `SameAs` is that equality, taken one level deep: the
 * neighbour sets are compared by the identity of their members.
 */
module Cells {
  import opened Util

  class Cell {
    var value: Option<int>
    var neighbours: set<Cell>

    /** The receiver is never among its own neighbours. */
    ghost predicate Valid()
      reads this
    {
      this !in neighbours
    }

    /** `new Cell()`: no value, no neighbours. */
    constructor ()
      ensures value == None && neighbours == {}
      ensures Valid()
    {
      value := None;
      neighbours := {};
    }

    /** Lombok `equals`: the same value and equal neighbour sets. */
    predicate SameAs(other: Cell)
      reads this, other
    {
      value == other.value && neighbours == other.neighbours
    }

    /** `addNeighbour`: a reference test keeps the receiver out; otherwise a `HashSet` add. */
    method AddNeighbour(cell: Cell)
      requires Valid()
      modifies this
      ensures Valid() && value == old(value)
      ensures cell == this ==> neighbours == old(neighbours)
      ensures cell != this ==> neighbours == old(Insert(neighbours, cell))
    {
      if cell != this {
        neighbours := Insert(neighbours, cell);
      }
    }

    /**
     * `addNeighbours`: every given cell other than the receiver ends up
     * represented among the neighbours (itself or an equal cell), and
     * nothing else is added.
     */
    method AddNeighbours(cells: set<Cell>)
      requires Valid()
      modifies this
      ensures Valid() && value == old(value)
      ensures old(neighbours) <= neighbours <= old(neighbours) + (cells - {this})
      ensures forall c :: c in cells && c != this ==> Represented(neighbours, c)
    {
      var rest := cells;
      while rest != {}
        invariant rest <= cells
        invariant Valid() && value == old(value)
        invariant old(neighbours) <= neighbours <= old(neighbours) + (cells - {this})
        invariant forall c :: c in cells - rest && c != this ==> Represented(neighbours, c)
        decreases rest
      {
        var cell :| cell in rest;
        ghost var before := neighbours;
        AddNeighbour(cell);
        forall c | c in cells - rest && c != this
          ensures Represented(neighbours, c)
        {
          RepresentedGrows(before, neighbours, c);
        }
        rest := rest - {cell};
      }
    }

    /** `getNeighbourValues`: the values of the neighbours that have one; no cell changes. */
    method GetNeighbourValues() returns (values: set<int>)
      ensures values == ValuesOf(neighbours)
    {
      values := {};
      var rest := neighbours;
      while rest != {}
        invariant rest <= neighbours
        invariant values == ValuesOf(neighbours - rest)
        decreases rest
      {
        var neighbour :| neighbour in rest;
        ValuesOfAdd(neighbours - rest, neighbour);
        if neighbour.value.Some? {
          values := values + {neighbour.value.value};
        }
        assert neighbours - (rest - {neighbour}) == (neighbours - rest) + {neighbour};
        rest := rest - {neighbour};
      }
    }
  }

  /** Some member of `s` equals `x` in the `@Data` sense. */
  ghost predicate Represented(s: set<Cell>, x: Cell)
    reads s, x
  {
    exists y :: y in s && y.SameAs(x)
  }

  /** `HashSet<Cell>.add(x)`: x joins unless an equal cell is already a member. */
  function Insert(s: set<Cell>, x: Cell): (r: set<Cell>)
    reads s, x
    ensures s <= r <= s + {x}
    ensures Represented(r, x)
    ensures x in r - s ==> !Represented(s, x)
  {
    if exists y :: y in s && y.SameAs(x) then s else s + {x}
  }

  /** The values held by the cells of `cs` that have one. */
  ghost function ValuesOf(cs: set<Cell>): set<int>
    reads cs
  {
    set c | c in cs && c.value.Some? :: c.value.value
  }

  lemma RepresentedGrows(s: set<Cell>, t: set<Cell>, x: Cell)
    requires s <= t && Represented(s, x)
    ensures Represented(t, x)
  {
    var y :| y in s && y.SameAs(x);
    assert y in t;
  }

  /** Adding one cell adds its value, if it has one, and nothing else. */
  lemma ValuesOfAdd(cs: set<Cell>, n: Cell)
    ensures ValuesOf(cs + {n}) == ValuesOf(cs) + (if n.value.Some? then {n.value.value} else {})
  {
  }

  /** A value is collected exactly when some cell holds it; cells without a value contribute nothing. */
  lemma ValuesOfSpec(cs: set<Cell>)
    ensures forall v :: v in ValuesOf(cs) <==> exists c :: c in cs && c.value == Some(v)
    ensures (forall c :: c in cs ==> c.value.None?) ==> ValuesOf(cs) == {}
  {
    forall v | exists c :: c in cs && c.value == Some(v)
      ensures v in ValuesOf(cs)
    {
      var c :| c in cs && c.value == Some(v);
      assert c.value.value == v;
    }
  }

  /** Two fresh cells are equal in the `@Data` sense, so a `HashSet` keeps only one of them. */
  lemma FreshCellsEqual(x: Cell, y: Cell)
    requires x.value == None && x.neighbours == {} && y.value == None && y.neighbours == {}
    ensures x.SameAs(y)
    ensures Insert({x}, y) == {x}
  {
    assert Represented({x}, y);
  }
}

/**
  Two classic configurations run through the step: the 2 x 2 block is a
  still life, and the three-cell blinker is an oscillator of period 2.
  Both patterns are rectangles of live cells, which keeps their neighbour
  counts linear arithmetic.
*/
module Patterns {
  import opened LifeRules

  /** The rectangle [left, right] x [top, bottom] of positions, bounds included. */
  datatype Rect = Rect(left: int, top: int, right: int, bottom: int)

  predicate InRect(r: Rect, p: Pos)
  {
    r.left <= p.0 <= r.right && r.top <= p.1 <= r.bottom
  }

  /** The positions of the width x height grid, as a set. */
  function Positions(width: nat, height: nat): (ps: set<Pos>)
    ensures forall p :: p in ps <==> InGrid(width, height, p)
  {
    set x, y | 0 <= x < width && 0 <= y < height :: (x, y)
  }

  /** The width x height grid whose live cells are exactly those inside r. */
  function Pattern(width: nat, height: nat, r: Rect): (cells: map<Pos, bool>)
    ensures forall p :: p in cells <==> InGrid(width, height, p)
    ensures forall p :: p in cells ==> (cells[p] <==> InRect(r, p))
  {
    map p | p in Positions(width, height) :: InRect(r, p)
  }

  /** One if p is a live cell of the pattern grid, zero otherwise (off-grid included). */
  function LiveAt(width: nat, height: nat, r: Rect, p: Pos): nat
  {
    if InGrid(width, height, p) && InRect(r, p) then 1 else 0
  }

  /** The neighbour count is the sum of what the eight offsets around c contribute. */
  lemma NeighbourCountUnfolded(cells: map<Pos, bool>, c: Pos)
    ensures NeighbourCount(cells, c) ==
              Contribution(cells, c, (-1, -1)) + Contribution(cells, c, (0, -1)) + Contribution(cells, c, (1, -1)) +
              Contribution(cells, c, (-1, 0)) + Contribution(cells, c, (1, 0)) +
              Contribution(cells, c, (-1, 1)) + Contribution(cells, c, (0, 1)) + Contribution(cells, c, (1, 1))
  {
    assert PartialCount(cells, c, 1) == Contribution(cells, c, (-1, -1));
    assert PartialCount(cells, c, 2) == PartialCount(cells, c, 1) + Contribution(cells, c, (0, -1));
    assert PartialCount(cells, c, 3) == PartialCount(cells, c, 2) + Contribution(cells, c, (1, -1));
    assert PartialCount(cells, c, 4) == PartialCount(cells, c, 3) + Contribution(cells, c, (-1, 0));
    assert PartialCount(cells, c, 5) == PartialCount(cells, c, 4);
    assert PartialCount(cells, c, 6) == PartialCount(cells, c, 5) + Contribution(cells, c, (1, 0));
    assert PartialCount(cells, c, 7) == PartialCount(cells, c, 6) + Contribution(cells, c, (-1, 1));
    assert PartialCount(cells, c, 8) == PartialCount(cells, c, 7) + Contribution(cells, c, (0, 1));
  }

  /** A neighbour offset of a pattern grid contributes exactly when it lands on a live cell of the grid. */
  lemma PatternContribution(cells: map<Pos, bool>, width: nat, height: nat, r: Rect, c: Pos, d: Pos)
    requires cells == Pattern(width, height, r)
    requires d != (0, 0)
    ensures Contribution(cells, c, d) == LiveAt(width, height, r, Shift(c, d))
  {
  }

  /** The four offsets visited before the centre, on a pattern grid. */
  lemma PatternCountBefore(cells: map<Pos, bool>, width: nat, height: nat, r: Rect, c: Pos)
    requires cells == Pattern(width, height, r)
    ensures Contribution(cells, c, (-1, -1)) + Contribution(cells, c, (0, -1)) +
            Contribution(cells, c, (1, -1)) + Contribution(cells, c, (-1, 0)) ==
              LiveAt(width, height, r, (c.0 - 1, c.1 - 1)) + LiveAt(width, height, r, (c.0, c.1 - 1)) +
              LiveAt(width, height, r, (c.0 + 1, c.1 - 1)) + LiveAt(width, height, r, (c.0 - 1, c.1))
  {
    PatternContribution(cells, width, height, r, c, (-1, -1));
    PatternContribution(cells, width, height, r, c, (0, -1));
    PatternContribution(cells, width, height, r, c, (1, -1));
    PatternContribution(cells, width, height, r, c, (-1, 0));
  }

  /** The four offsets visited after the centre, on a pattern grid. */
  lemma PatternCountAfter(cells: map<Pos, bool>, width: nat, height: nat, r: Rect, c: Pos)
    requires cells == Pattern(width, height, r)
    ensures Contribution(cells, c, (1, 0)) + Contribution(cells, c, (-1, 1)) +
            Contribution(cells, c, (0, 1)) + Contribution(cells, c, (1, 1)) ==
              LiveAt(width, height, r, (c.0 + 1, c.1)) + LiveAt(width, height, r, (c.0 - 1, c.1 + 1)) +
              LiveAt(width, height, r, (c.0, c.1 + 1)) + LiveAt(width, height, r, (c.0 + 1, c.1 + 1))
  {
    PatternContribution(cells, width, height, r, c, (1, 0));
    PatternContribution(cells, width, height, r, c, (-1, 1));
    PatternContribution(cells, width, height, r, c, (0, 1));
    PatternContribution(cells, width, height, r, c, (1, 1));
  }

  /** The neighbour count of a pattern grid, as eight linear terms. */
  lemma PatternCount(cells: map<Pos, bool>, width: nat, height: nat, r: Rect, c: Pos)
    requires cells == Pattern(width, height, r)
    ensures NeighbourCount(cells, c) ==
              LiveAt(width, height, r, (c.0 - 1, c.1 - 1)) + LiveAt(width, height, r, (c.0, c.1 - 1)) +
              LiveAt(width, height, r, (c.0 + 1, c.1 - 1)) + LiveAt(width, height, r, (c.0 - 1, c.1)) +
              LiveAt(width, height, r, (c.0 + 1, c.1)) + LiveAt(width, height, r, (c.0 - 1, c.1 + 1)) +
              LiveAt(width, height, r, (c.0, c.1 + 1)) + LiveAt(width, height, r, (c.0 + 1, c.1 + 1))
  {
    NeighbourCountUnfolded(cells, c);
    PatternCountBefore(cells, width, height, r, c);
    PatternCountAfter(cells, width, height, r, c);
  }

  /** The 2 x 2 block, one cell in from the corner of a 4 x 4 grid. */
  const Block := Rect(1, 1, 2, 2)

  /** The blinker in its horizontal phase, centred in a 5 x 5 grid. */
  const BlinkerRow := Rect(1, 2, 3, 2)

  /** The blinker in its vertical phase, around the same centre. */
  const BlinkerColumn := Rect(2, 1, 2, 3)

  /** A grid whose every cell steps to its state in the pattern next has stepped to that pattern. */
  lemma StepPattern(width: nat, height: nat, lives: Rect, next: Rect)
    requires forall p :: p in Pattern(width, height, lives) ==>
                NextCell(Pattern(width, height, lives), p) == InRect(next, p)
    ensures NextGeneration(Pattern(width, height, lives)) == Pattern(width, height, next)
  {
    SameMap(NextGeneration(Pattern(width, height, lives)), Pattern(width, height, next));
  }

  /**
    The block is a still life: each of its cells has three live neighbours
    and survives, and no dead cell of the grid has three, so none is born.
  */
  lemma BlockIsStill()
    ensures NextGeneration(Pattern(4, 4, Block)) == Pattern(4, 4, Block)
  {
    var cells := Pattern(4, 4, Block);
    forall p | p in cells
      ensures NextCell(cells, p) == InRect(Block, p)
    {
      PatternCount(cells, 4, 4, Block, p);
    }
    StepPattern(4, 4, Block, Block);
  }

  /** The horizontal blinker turns vertical: its ends die and the cells above and below the centre are born. */
  lemma BlinkerRowToColumn()
    ensures NextGeneration(Pattern(5, 5, BlinkerRow)) == Pattern(5, 5, BlinkerColumn)
  {
    var cells := Pattern(5, 5, BlinkerRow);
    forall p | p in cells
      ensures NextCell(cells, p) == InRect(BlinkerColumn, p)
    {
      PatternCount(cells, 5, 5, BlinkerRow, p);
    }
    StepPattern(5, 5, BlinkerRow, BlinkerColumn);
  }

  /** The vertical blinker turns horizontal again. */
  lemma BlinkerColumnToRow()
    ensures NextGeneration(Pattern(5, 5, BlinkerColumn)) == Pattern(5, 5, BlinkerRow)
  {
    var cells := Pattern(5, 5, BlinkerColumn);
    forall p | p in cells
      ensures NextCell(cells, p) == InRect(BlinkerRow, p)
    {
      PatternCount(cells, 5, 5, BlinkerColumn, p);
    }
    StepPattern(5, 5, BlinkerColumn, BlinkerRow);
  }

  /** The blinker oscillates with period 2: one step changes it, two steps restore it. */
  lemma BlinkerOscillates()
    ensures NextGeneration(Pattern(5, 5, BlinkerRow)) != Pattern(5, 5, BlinkerRow)
    ensures NextGeneration(NextGeneration(Pattern(5, 5, BlinkerRow))) == Pattern(5, 5, BlinkerRow)
  {
    BlinkerRowToColumn();
    BlinkerColumnToRow();
    var row, column := Pattern(5, 5, BlinkerRow), Pattern(5, 5, BlinkerColumn);
    assert (1, 2) in row && row[(1, 2)] && !column[(1, 2)];
  }
}

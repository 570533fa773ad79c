/**
  The rules of Conway's Game of Life (B3/S23) on a bounded, non-wrapping
  grid: the coordinate space and its row-major enumeration, the count of
  live neighbours, the per-cell decision a generation step takes, and the
  proof that a step computed from a snapshot does not depend on the order
  in which the cells are visited.
*/
module LifeRules {

  /** A cell coordinate (x, y): x is the column, y the row. */
  type Pos = (int, int)

  /** p lies in the rectangle [0, width) x [0, height). */
  predicate InGrid(width: int, height: int, p: Pos)
  {
    0 <= p.0 < width && 0 <= p.1 < height
  }

  /** Two grids with the same positions and the same state at each are equal. */
  lemma SameMap(a: map<Pos, bool>, b: map<Pos, bool>)
    requires a.Keys == b.Keys
    requires forall p :: p in a ==> a[p] == b[p]
    ensures a == b
  {
  }

  // ---------------------------------------------------------------------
  // Row-major enumeration of the grid (y outer, x inner, both ascending)
  // ---------------------------------------------------------------------

  /** The positions (0, y), (1, y), ..., (width - 1, y) of row y. */
  function GridRow(width: nat, y: int): (row: seq<Pos>)
    ensures |row| == width
    ensures forall x :: 0 <= x < width ==> row[x] == (x, y)
    ensures forall p :: p in row <==> p.1 == y && 0 <= p.0 < width
  {
    if width == 0 then [] else GridRow(width - 1, y) + [(width - 1, y)]
  }

  /** Every position of a width x height grid, in the order the grid visits them. */
  function RowMajor(width: nat, height: nat): (order: seq<Pos>)
    ensures forall p :: p in order <==> InGrid(width, height, p)
  {
    if height == 0 then [] else RowMajor(width, height - 1) + GridRow(width, height - 1)
  }

  /** p comes strictly before q in row-major order. */
  predicate Precedes(p: Pos, q: Pos)
  {
    p.1 < q.1 || (p.1 == q.1 && p.0 < q.0)
  }

  /** The enumeration has exactly one entry per position of the grid. */
  lemma {:induction false} RowMajorLength(width: nat, height: nat)
    ensures |RowMajor(width, height)| == width * height
  {
    if height > 0 {
      RowMajorLength(width, height - 1);
      MulPred(width, height);
    }
  }

  lemma MulPred(b: int, a: int)
    ensures b * (a - 1) + b == b * a
  {
  }

  /**
    The enumeration visits the positions in strictly increasing row-major
    order, so none is visited twice.
  */
  lemma {:induction false} RowMajorOrdered(width: nat, height: nat)
    ensures forall i, j :: 0 <= i < j < |RowMajor(width, height)| ==>
              Precedes(RowMajor(width, height)[i], RowMajor(width, height)[j])
  {
    if height > 0 {
      RowMajorOrdered(width, height - 1);
      var prefix, row := RowMajor(width, height - 1), GridRow(width, height - 1);
      var all := RowMajor(width, height);
      assert all == prefix + row;
      forall i, j | 0 <= i < j < |all|
        ensures Precedes(all[i], all[j])
      {
        if j >= |prefix| {
          assert all[j] == row[j - |prefix|];
          if i < |prefix| {
            assert all[i] == prefix[i] && prefix[i] in prefix;
          } else {
            assert all[i] == row[i - |prefix|];
          }
        }
      }
    }
  }

  // ---------------------------------------------------------------------
  // Neighbour counting
  // ---------------------------------------------------------------------

  /** The position reached from c by the offset d. */
  function Shift(c: Pos, d: Pos): Pos
  {
    (c.0 + d.0, c.1 + d.1)
  }

  /**
    The k-th offset of the 3 x 3 window around a cell, in the order the
    neighbour loop visits it: dy outer, dx inner, both -1, 0, 1. Index 4
    is the centre (0, 0).
  */
  function WindowOffset(k: int): Pos
  {
    if k < 3 then (k - 1, -1)
    else if k < 6 then (k - 4, 0)
    else (k - 7, 1)
  }

  /**
    What the offset d adds to the count around c: nothing for the centre,
    one for a live cell at c + d, and nothing for a dead cell or for a
    position the map does not hold (the grid does not wrap around).
  */
  function Contribution(cells: map<Pos, bool>, c: Pos, d: Pos): nat
  {
    if d == (0, 0) then 0
    else if Shift(c, d) in cells && cells[Shift(c, d)] then 1
    else 0
  }

  /** The count after the first k offsets of the window have been visited. */
  function PartialCount(cells: map<Pos, bool>, c: Pos, k: nat): (n: nat)
    requires k <= 9
    ensures n <= k
    ensures k > 4 ==> n < k
  {
    if k == 0 then 0
    else PartialCount(cells, c, k - 1) + Contribution(cells, c, WindowOffset(k - 1))
  }

  /** The number of live cells among the eight neighbours of c. */
  function NeighbourCount(cells: map<Pos, bool>, c: Pos): (n: nat)
    ensures n <= 8
  {
    PartialCount(cells, c, 9)
  }

  /** p is one of the eight cells at Chebyshev distance 1 from c. */
  predicate Adjacent(c: Pos, p: Pos)
  {
    p != c && -1 <= p.0 - c.0 <= 1 && -1 <= p.1 - c.1 <= 1
  }

  /** The live cells of the map that are adjacent to c. */
  function LiveNeighbours(cells: map<Pos, bool>, c: Pos): set<Pos>
  {
    set p | p in cells && cells[p] && Adjacent(c, p)
  }

  /** The cells the first k offsets of the window find alive. */
  ghost function LiveInWindow(cells: map<Pos, bool>, c: Pos, k: nat): set<Pos>
  {
    set j | 0 <= j < k && Contribution(cells, c, WindowOffset(j)) == 1 :: Shift(c, WindowOffset(j))
  }

  /** Offsets (dx, dy) with both components in -1..1 sit at index 3 (dy + 1) + dx + 1. */
  lemma WindowIndex(dx: int, dy: int)
    requires -1 <= dx <= 1 && -1 <= dy <= 1
    ensures 0 <= 3 * (dy + 1) + dx + 1 < 9
    ensures WindowOffset(3 * (dy + 1) + dx + 1) == (dx, dy)
  {
  }

  /** Visiting offset k - 1 adds its cell to the live set exactly when it contributes, and that cell is new. */
  lemma LiveInWindowGrows(cells: map<Pos, bool>, c: Pos, k: nat)
    requires 0 < k <= 9
    ensures Contribution(cells, c, WindowOffset(k - 1)) == 1 ==>
              LiveInWindow(cells, c, k) == LiveInWindow(cells, c, k - 1) + {Shift(c, WindowOffset(k - 1))} &&
              Shift(c, WindowOffset(k - 1)) !in LiveInWindow(cells, c, k - 1)
    ensures Contribution(cells, c, WindowOffset(k - 1)) == 0 ==>
              LiveInWindow(cells, c, k) == LiveInWindow(cells, c, k - 1)
  {
  }

  lemma {:induction false} PartialCountIsLiveInWindow(cells: map<Pos, bool>, c: Pos, k: nat)
    requires k <= 9
    ensures PartialCount(cells, c, k) == |LiveInWindow(cells, c, k)|
  {
    if k > 0 {
      PartialCountIsLiveInWindow(cells, c, k - 1);
      LiveInWindowGrows(cells, c, k);
    }
  }

  /**
    The count the neighbour loop computes is the number of live cells at
    Chebyshev distance 1 that the map holds: the cell itself is never
    counted, and a neighbour outside the map (off the grid) adds nothing.
  */
  lemma NeighbourCountIsLiveNeighbours(cells: map<Pos, bool>, c: Pos)
    ensures NeighbourCount(cells, c) == |LiveNeighbours(cells, c)|
  {
    PartialCountIsLiveInWindow(cells, c, 9);
    var window, live := LiveInWindow(cells, c, 9), LiveNeighbours(cells, c);
    forall p | p in live
      ensures p in window
    {
      var dx, dy := p.0 - c.0, p.1 - c.1;
      WindowIndex(dx, dy);
      var j := 3 * (dy + 1) + dx + 1;
      assert Shift(c, WindowOffset(j)) == p;
    }
    assert window == live;
  }

  /**
    No wrap-around: at the corner of a grid whose every cell is alive only
    the three neighbours inside the grid are counted, while an interior
    cell sees all eight.
  */
  lemma CornerAndInteriorCounts(cells: map<Pos, bool>, width: nat, height: nat)
    requires forall p :: p in cells <==> InGrid(width, height, p)
    requires forall p :: p in cells ==> cells[p]
    requires width >= 3 && height >= 3
    ensures NeighbourCount(cells, (0, 0)) == 3
    ensures NeighbourCount(cells, (1, 1)) == 8
  {
    assert (-1, -1) !in cells && (0, -1) !in cells && (1, -1) !in cells && (-1, 0) !in cells && (-1, 1) !in cells;
    assert (0, 0) in cells && (1, 0) in cells && (2, 0) in cells && (0, 1) in cells;
    assert (2, 1) in cells && (0, 2) in cells && (1, 2) in cells && (2, 2) in cells;
    assert PartialCount(cells, (0, 0), 1) == 0;
    assert PartialCount(cells, (0, 0), 2) == 0;
    assert PartialCount(cells, (0, 0), 3) == 0;
    assert PartialCount(cells, (0, 0), 4) == 0;
    assert PartialCount(cells, (0, 0), 5) == 0;
    assert PartialCount(cells, (0, 0), 6) == 1;
    assert PartialCount(cells, (0, 0), 7) == 1;
    assert PartialCount(cells, (0, 0), 8) == 2;
    assert PartialCount(cells, (0, 0), 9) == 3;
    assert PartialCount(cells, (1, 1), 1) == 1;
    assert PartialCount(cells, (1, 1), 2) == 2;
    assert PartialCount(cells, (1, 1), 3) == 3;
    assert PartialCount(cells, (1, 1), 4) == 4;
    assert PartialCount(cells, (1, 1), 5) == 4;
    assert PartialCount(cells, (1, 1), 6) == 5;
    assert PartialCount(cells, (1, 1), 7) == 6;
    assert PartialCount(cells, (1, 1), 8) == 7;
    assert PartialCount(cells, (1, 1), 9) == 8;
  }

  // ---------------------------------------------------------------------
  // The rule and the generation step
  // ---------------------------------------------------------------------

  /** Conway's rule B3/S23: the next state of a cell with n live neighbours. */
  function LifeRule(alive: bool, n: int): (next: bool)
    ensures n < 2 ==> !next
    ensures alive && 2 <= n <= 3 ==> next
    ensures n > 3 ==> !next
    ensures !alive && n == 3 ==> next
    ensures !alive && n == 2 ==> !next
  {
    n == 3 || (alive && n == 2)
  }

  /** What a step writes for one cell: a new value, or nothing at all. */
  datatype Write = Assign(value: bool) | Keep

  /**
    The chain of branches a step takes for one cell, given its current state
    and its live-neighbour count. A cell that matches no branch, a dead cell
    with two live neighbours, is not written; every value written is the
    one B3/S23 gives.
  */
  function RuleBranch(alive: bool, n: int): (w: Write)
    ensures w == Keep <==> !alive && n == 2
    ensures w.Assign? ==> w.value == LifeRule(alive, n)
  {
    if n < 2 then Assign(false)
    else if 2 <= n <= 3 && alive then Assign(true)
    else if n > 3 then Assign(false)
    else if n == 3 && !alive then Assign(true)
    else Keep
  }

  /**
    The cell the branch chain leaves unwritten is one whose state B3/S23
    keeps, so the value the copy already holds is the right one.
  */
  lemma RuleBranchFollowsLife(alive: bool, n: int)
    ensures RuleBranch(alive, n) == Keep ==> LifeRule(alive, n) == alive
  {
  }

  /** The state of p in the next generation of cells. */
  function NextCell(cells: map<Pos, bool>, p: Pos): bool
    requires p in cells
  {
    LifeRule(cells[p], NeighbourCount(cells, p))
  }

  /** The next generation: every cell decided from the old map alone. */
  function NextGeneration(cells: map<Pos, bool>): (next: map<Pos, bool>)
    ensures next.Keys == cells.Keys
  {
    map p | p in cells :: NextCell(cells, p)
  }

  /**
    One cell's turn during a step: the branch chosen from the cell's old
    state alive and its count n is applied to the copy target. Only p can
    change, and if the copy still holds p's old state (or already its next
    one), p ends up with its B3/S23 state.
  */
  function WriteCell(target: map<Pos, bool>, p: Pos, alive: bool, n: int): (written: map<Pos, bool>)
    ensures p in target ==> written.Keys == target.Keys
    ensures forall q :: q in target && q != p ==> q in written && written[q] == target[q]
    ensures p in target && (target[p] == alive || target[p] == LifeRule(alive, n)) ==>
              written[p] == LifeRule(alive, n)
  {
    RuleBranchFollowsLife(alive, n);
    match RuleBranch(alive, n)
    case Assign(v) => target[p := v]
    case Keep => target
  }

  /**
    A step that visits the positions of order in turn, deciding each from
    the snapshot cells and writing only into target: positions outside
    order keep the value target gives them.
  */
  function StepInto(cells: map<Pos, bool>, target: map<Pos, bool>, order: seq<Pos>): (written: map<Pos, bool>)
    requires forall p :: p in order ==> p in cells
    ensures (forall p :: p in order ==> p in target) ==> written.Keys == target.Keys
    ensures forall q :: q in target && q !in order ==> q in written && written[q] == target[q]
    decreases |order|
  {
    if order == [] then target
    else
      var p := order[0];
      StepInto(cells, WriteCell(target, p, cells[p], NeighbourCount(cells, p)), order[1..])
  }

  /** Every cell of target holds either its old state or its next one. */
  ghost predicate Between(cells: map<Pos, bool>, target: map<Pos, bool>)
  {
    target.Keys == cells.Keys &&
    forall p :: p in target ==> target[p] == cells[p] || target[p] == NextCell(cells, p)
  }

  lemma {:induction false} StepIntoSettles(cells: map<Pos, bool>, target: map<Pos, bool>, order: seq<Pos>)
    requires forall p :: p in order ==> p in cells
    requires Between(cells, target)
    ensures StepInto(cells, target, order).Keys == cells.Keys
    ensures forall p :: p in order ==> StepInto(cells, target, order)[p] == NextCell(cells, p)
    ensures forall p :: p in cells && p !in order ==> StepInto(cells, target, order)[p] == target[p]
  {
    if order != [] {
      var p := order[0];
      var target' := WriteCell(target, p, cells[p], NeighbourCount(cells, p));
      assert Between(cells, target');
      assert target'[p] == NextCell(cells, p);
      StepIntoSettles(cells, target', order[1..]);
      forall q | q in order
        ensures StepInto(cells, target, order)[q] == NextCell(cells, q)
      {
        if q != p {
          assert q in order[1..];
        }
      }
    }
  }

  /**
    The step is simultaneous: starting from a copy of the grid and visiting
    its positions in ANY order that covers them all (repeats allowed), the
    result is the next generation computed pointwise from the old grid.
  */
  lemma StepOrderIndependent(cells: map<Pos, bool>, order: seq<Pos>)
    requires forall p :: p in order <==> p in cells
    ensures StepInto(cells, cells, order) == NextGeneration(cells)
  {
    StepIntoSettles(cells, cells, order);
  }

  /** In particular, the grid's own row-major visit yields the next generation. */
  lemma RowMajorStep(cells: map<Pos, bool>, width: nat, height: nat)
    requires forall p :: p in cells <==> InGrid(width, height, p)
    ensures StepInto(cells, cells, RowMajor(width, height)) == NextGeneration(cells)
  {
    StepOrderIndependent(cells, RowMajor(width, height));
  }

  /**
    A map that holds the next state of every cell of the grid is the next
    generation, and so equals the row-major fold over the grid.
  */
  lemma PointwiseNextGeneration(cells: map<Pos, bool>, next: map<Pos, bool>, width: nat, height: nat)
    requires forall p :: p in cells <==> InGrid(width, height, p)
    requires next.Keys == cells.Keys
    requires forall p :: p in next ==> next[p] == NextCell(cells, p)
    ensures next == NextGeneration(cells)
    ensures next == StepInto(cells, cells, RowMajor(width, height))
  {
    SameMap(next, NextGeneration(cells));
    RowMajorStep(cells, width, height);
  }
}

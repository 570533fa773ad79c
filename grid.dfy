/**
  The grid object of the simulator: a map from every position of a fixed
  width x height rectangle to its alive flag, and the operations that
  create it, randomise it, advance it one generation and render it.
*/
module GridState {
  import opened LifeRules
  import opened Rendering

  class Grid {
    var cells: map<Pos, bool>
    const width: nat
    const height: nat
    const ascii: bool

    /** The key set of cells is exactly the grid rectangle. */
    ghost predicate Valid()
      reads this
    {
      forall p :: p in cells <==> InGrid(width, height, p)
    }

    /** A grid of the given size with every cell dead. */
    constructor (width: nat, height: nat, ascii: bool)
      ensures Valid()
      ensures this.width == width && this.height == height && this.ascii == ascii
      ensures forall p :: p in cells ==> !cells[p]
    {
      this.width, this.height, this.ascii := width, height, ascii;
      cells := map[];
      new;
      var y := 0;
      while y < height
        invariant 0 <= y <= height
        invariant forall p :: p in cells <==> InGrid(width, height, p) && Precedes(p, (0, y))
        invariant forall p :: p in cells ==> !cells[p]
      {
        var x := 0;
        while x < width
          invariant 0 <= x <= width
          invariant forall p :: p in cells <==> InGrid(width, height, p) && Precedes(p, (x, y))
          invariant forall p :: p in cells ==> !cells[p]
        {
          cells := cells[(x, y) := false];
          x := x + 1;
        }
        y := y + 1;
      }
    }

    /**
      Gives every cell the value the random source draws for it; coin(p)
      stands for the boolean drawn when the loop reaches p.
    */
    method Randomize(coin: Pos -> bool)
      requires Valid()
      modifies this
      ensures Valid()
      ensures forall p :: p in cells ==> cells[p] == coin(p)
    {
      var y := 0;
      while y < height
        invariant 0 <= y <= height
        invariant Valid()
        invariant forall p :: p in cells && Precedes(p, (0, y)) ==> cells[p] == coin(p)
      {
        var x := 0;
        while x < width
          invariant 0 <= x <= width
          invariant Valid()
          invariant forall p :: p in cells && Precedes(p, (x, y)) ==> cells[p] == coin(p)
        {
          cells := cells[(x, y) := coin((x, y))];
          x := x + 1;
        }
        y := y + 1;
      }
    }

    /** A copy of the cell map: the same positions with the same states. */
    method CopyGrid() returns (hmc: map<Pos, bool>)
      requires Valid()
      ensures hmc == cells
    {
      hmc := map[];
      var y := 0;
      while y < height
        invariant 0 <= y <= height
        invariant forall p :: p in hmc <==> p in cells && Precedes(p, (0, y))
        invariant forall p :: p in hmc ==> hmc[p] == cells[p]
      {
        var x := 0;
        while x < width
          invariant 0 <= x <= width
          invariant forall p :: p in hmc <==> p in cells && Precedes(p, (x, y))
          invariant forall p :: p in hmc ==> hmc[p] == cells[p]
        {
          hmc := hmc[(x, y) := cells[(x, y)]];
          x := x + 1;
        }
        y := y + 1;
      }
      SameMap(hmc, cells);
    }

    /**
      The number of live cells among the eight neighbours of coords, read
      from the 3 x 3 window around it row by row; positions the map does
      not hold count as dead.
    */
    method AliveCount(coords: Pos) returns (accum: nat)
      ensures accum == NeighbourCount(cells, coords)
      ensures accum <= 8
    {
      accum := 0;
      var yOffset := -1;
      while yOffset < 2
        invariant -1 <= yOffset <= 2
        invariant accum == PartialCount(cells, coords, 3 * (yOffset + 1))
      {
        var xOffset := -1;
        while xOffset < 2
          invariant -1 <= xOffset <= 2
          invariant accum == PartialCount(cells, coords, 3 * (yOffset + 1) + xOffset + 1)
        {
          assert WindowOffset(3 * (yOffset + 1) + xOffset + 1) == (xOffset, yOffset);
          if xOffset == 0 && yOffset == 0 {
            xOffset := xOffset + 1;
            continue;
          }
          var (x, y) := coords;
          var newCoords := (x + xOffset, y + yOffset);
          if newCoords in cells && cells[newCoords] {
            accum := accum + 1;
          }
          xOffset := xOffset + 1;
        }
        yOffset := yOffset + 1;
      }
    }

    /**
      Advances the grid one generation. Every cell is decided from the cells
      as they were before the step and written into a copy, which then
      replaces the cell map.
    */
    method Step()
      requires Valid()
      modifies this
      ensures Valid()
      ensures cells == NextGeneration(old(cells))
      ensures cells == StepInto(old(cells), old(cells), RowMajor(width, height))
    {
      var hmc := CopyGrid();
      var y := 0;
      while y < height
        invariant 0 <= y <= height
        invariant cells == old(cells)
        invariant hmc.Keys == cells.Keys
        invariant forall p :: p in hmc ==> hmc[p] == if Precedes(p, (0, y)) then NextCell(cells, p) else cells[p]
      {
        var x := 0;
        while x < width
          invariant 0 <= x <= width
          invariant cells == old(cells)
          invariant hmc.Keys == cells.Keys
          invariant forall p :: p in hmc ==> hmc[p] == if Precedes(p, (x, y)) then NextCell(cells, p) else cells[p]
        {
          var n := AliveCount((x, y));
          hmc := WriteCell(hmc, (x, y), cells[(x, y)], n);
          x := x + 1;
        }
        y := y + 1;
      }
      PointwiseNextGeneration(cells, hmc, width, height);
      cells := hmc;
    }

    /** The glyphs of row y of the current generation, left to right. */
    method PrintRow(y: nat) returns (line: string)
      requires Valid()
      requires y < height
      ensures line == RowGlyphs(cells, ascii, y, width)
    {
      line := "";
      var x := 0;
      while x < width
        invariant 0 <= x <= width
        invariant line == RowGlyphs(cells, ascii, y, x)
      {
        line := line + [CellGlyph(ascii, cells[(x, y)])];
        x := x + 1;
      }
    }

    /** The frame of the current generation, one string per row. */
    method PrintTo() returns (rows: seq<string>)
      requires Valid()
      ensures rows == Render(cells, width, height, ascii)
    {
      rows := [];
      var y := 0;
      while y < height
        invariant 0 <= y <= height
        invariant rows == Render(cells, width, y, ascii)
      {
        var line := PrintRow(y);
        RenderNextRow(cells, width, y, ascii, rows, line);
        rows := rows + [line + "\n"];
        y := y + 1;
      }
    }
  }
}

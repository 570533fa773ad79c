/**
  The text frame of one generation: one row of glyphs per grid row, each
  row ended by a newline, with the glyph pair chosen by the ascii flag.
  The frame is modelled as the sequence of its rows rather than as writes
  to an output stream.
*/
module Rendering {
  import opened LifeRules

  /**
    The glyph of a dead cell: '.' in ASCII mode, the light shade U+2591
    otherwise; never the row terminator.
  */
  function DeadGlyph(ascii: bool): (g: char)
    ensures g != '\n'
  {
    if ascii then '.' else '\U{2591}'
  }

  /**
    The glyph of a live cell: 'x' in ASCII mode, the full block U+2588
    otherwise. In both modes it differs from the dead glyph and from the
    row terminator, so a frame can be read back cell by cell.
  */
  function AliveGlyph(ascii: bool): (g: char)
    ensures g != DeadGlyph(ascii)
    ensures g != '\n'
  {
    if ascii then 'x' else '\U{2588}'
  }

  /** The glyph printed for a cell in the given state. */
  function CellGlyph(ascii: bool, state: bool): (g: char)
    ensures g == AliveGlyph(ascii) <==> state
    ensures g != '\n'
  {
    if state then AliveGlyph(ascii) else DeadGlyph(ascii)
  }

  /** Every position of the width x height rectangle has an entry in cells. */
  ghost predicate Covers(cells: map<Pos, bool>, width: nat, height: nat)
  {
    forall p :: InGrid(width, height, p) ==> p in cells
  }

  /** The glyphs of the first n cells of row y. */
  function RowGlyphs(cells: map<Pos, bool>, ascii: bool, y: int, n: nat): (line: string)
    requires forall x :: 0 <= x < n ==> (x, y) in cells
    ensures |line| == n
    ensures forall x :: 0 <= x < n ==> line[x] == CellGlyph(ascii, cells[(x, y)])
  {
    if n == 0 then "" else RowGlyphs(cells, ascii, y, n - 1) + [CellGlyph(ascii, cells[(n - 1, y)])]
  }

  /**
    The frame of a width x height grid: height rows, row y being the glyphs
    of the cells (0, y) .. (width - 1, y) followed by a newline.
  */
  function Render(cells: map<Pos, bool>, width: nat, height: nat, ascii: bool): (rows: seq<string>)
    requires Covers(cells, width, height)
    ensures |rows| == height
    ensures forall y :: 0 <= y < height ==> |rows[y]| == width + 1
    ensures forall y :: 0 <= y < height ==> rows[y] == RowGlyphs(cells, ascii, y, width) + "\n"
  {
    if height == 0 then []
    else Render(cells, width, height - 1, ascii) + [RowGlyphs(cells, ascii, height - 1, width) + "\n"]
  }

  /**
    The exact shape of a frame: height rows of width + 1 characters, the
    last a newline, with the glyph of cell (x, y) at column x of row y.
  */
  lemma RenderShape(cells: map<Pos, bool>, width: nat, height: nat, ascii: bool)
    requires Covers(cells, width, height)
    ensures |Render(cells, width, height, ascii)| == height
    ensures forall y :: 0 <= y < height ==>
              |Render(cells, width, height, ascii)[y]| == width + 1 &&
              Render(cells, width, height, ascii)[y][width] == '\n'
    ensures forall x, y :: InGrid(width, height, (x, y)) ==>
              Render(cells, width, height, ascii)[y][x] == CellGlyph(ascii, cells[(x, y)])
  {
    var rows := Render(cells, width, height, ascii);
    forall x, y | InGrid(width, height, (x, y))
      ensures rows[y][x] == CellGlyph(ascii, cells[(x, y)])
    {
      assert rows[y] == RowGlyphs(cells, ascii, y, width) + "\n";
    }
  }

  /** Rendering one more row appends that row's glyphs and a newline to the frame. */
  lemma RenderNextRow(cells: map<Pos, bool>, width: nat, y: nat, ascii: bool, rows: seq<string>, line: string)
    requires Covers(cells, width, y + 1)
    requires rows == Render(cells, width, y, ascii)
    requires line == RowGlyphs(cells, ascii, y, width)
    ensures Render(cells, width, y + 1, ascii) == rows + [line + "\n"]
  {
  }

  /** A frame every row of which has width glyphs and a terminator. */
  predicate FrameShaped(rows: seq<string>, width: nat)
  {
    forall y :: 0 <= y < |rows| ==> |rows[y]| == width + 1
  }

  /** Reads a frame back: cell (x, y) is alive exactly when row y shows the alive glyph at column x. */
  function Decode(rows: seq<string>, width: nat, ascii: bool): (cells: map<Pos, bool>)
    requires FrameShaped(rows, width)
    ensures forall p :: p in cells <==> InGrid(width, |rows|, p)
  {
    map p | p in RowMajor(width, |rows|) :: rows[p.1][p.0] == AliveGlyph(ascii)
  }

  /** Every cell of a decoded frame is the state whose glyph the frame shows. */
  lemma DecodeRenderAt(cells: map<Pos, bool>, width: nat, height: nat, ascii: bool, p: Pos)
    requires forall q :: q in cells <==> InGrid(width, height, q)
    requires p in cells
    ensures p in Decode(Render(cells, width, height, ascii), width, ascii)
    ensures Decode(Render(cells, width, height, ascii), width, ascii)[p] == cells[p]
  {
    var rows := Render(cells, width, height, ascii);
    assert rows[p.1] == RowGlyphs(cells, ascii, p.1, width) + "\n";
  }

  /** A decoded frame holds exactly the positions of the grid it was rendered from. */
  lemma DecodeRenderKeys(cells: map<Pos, bool>, width: nat, height: nat, ascii: bool)
    requires forall p :: p in cells <==> InGrid(width, height, p)
    ensures Decode(Render(cells, width, height, ascii), width, ascii).Keys == cells.Keys
  {
  }

  /** Rendering loses nothing: decoding the frame of a grid gives back the grid. */
  lemma DecodeRender(cells: map<Pos, bool>, width: nat, height: nat, ascii: bool)
    requires forall p :: p in cells <==> InGrid(width, height, p)
    ensures Decode(Render(cells, width, height, ascii), width, ascii) == cells
  {
    var back := Decode(Render(cells, width, height, ascii), width, ascii);
    DecodeRenderKeys(cells, width, height, ascii);
    forall p | p in cells
      ensures back[p] == cells[p]
    {
      DecodeRenderAt(cells, width, height, ascii, p);
    }
    SameMap(back, cells);
  }

  /** A 2 x 1 grid with a live cell then a dead one renders as "x.\n" or as a block then a shade. */
  lemma RenderTwoCells(cells: map<Pos, bool>)
    requires cells == map[(0, 0) := true, (1, 0) := false]
    ensures Render(cells, 2, 1, true) == ["x.\n"]
    ensures Render(cells, 2, 1, false) == ["\U{2588}\U{2591}\n"]
  {
    assert RowGlyphs(cells, true, 0, 2) == "x.";
    assert Render(cells, 2, 1, true) == [] + ["x." + "\n"];
    assert "x." + "\n" == "x.\n";
    assert RowGlyphs(cells, false, 0, 2) == "\U{2588}\U{2591}";
    assert Render(cells, 2, 1, false) == [] + ["\U{2588}\U{2591}" + "\n"];
    assert "\U{2588}\U{2591}" + "\n" == "\U{2588}\U{2591}\n";
  }
}

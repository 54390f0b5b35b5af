/** The universe: a toroidal grid of cells that the host seeds, edits and
    advances one generation at a time. */
module Life {
  import opened Cells
  import opened Grid

  class Universe {
    var width: nat              // cells per row
    var height: nat             // number of rows
    var cells: seq<Cell>        // width * height cells, row-major
    var prevcells: seq<Cell>    // the cells before the last tick or reset
    var mousedown: bool         // set by the host during a shift-click gesture

    /** The dimensions are `u32`s whose product, which sizes the buffer, is
        itself computed as a `u32`; the buffer holds one cell per position. */
    ghost predicate Valid()
      reads this
    {
      width <= MaxU32 && height <= MaxU32 &&
      |cells| == width * height && |cells| <= MaxU32
    }

    /** A 128-by-128 universe seeded from the random draws, with the inverse
        buffer as its previous generation and no gesture in progress. */
    constructor (draw: nat -> nat)
      ensures Valid()
      ensures width == 128 && height == 128
      ensures cells == GenerateCells(128, 128, Random5050, draw)
      ensures prevcells == InvertCells(cells)
      ensures !mousedown
    {
      width, height := 128, 128;
      var generated := GenerateCells(128, 128, Random5050, draw);
      cells := generated;
      prevcells := InvertCells(generated);
      mousedown := false;
    }

    function Width(): nat
      reads this
    {
      width
    }

    function Height(): nat
      reads this
    {
      height
    }

    /** The current buffer, which the host reads to paint. */
    function GetCells(): seq<Cell>
      reads this
    {
      cells
    }

    /** The buffer before the last tick or reset. */
    function GetPrevCells(): seq<Cell>
      reads this
    {
      prevcells
    }

    function IsMousedown(): bool
      reads this
    {
      mousedown
    }

    method SetMousedownValue(value: bool)
      requires Valid()
      modifies this
      ensures Valid()
      ensures mousedown == value
      ensures width == old(width) && height == old(height)
      ensures cells == old(cells) && prevcells == old(prevcells)
    {
      mousedown := value;
    }

    /** Sets the width and clears the grid: the buffer becomes width * height
        Dead cells. */
    method SetWidth(w: nat)
      requires Valid()
      requires w <= MaxU32 && w * height <= MaxU32
      modifies this
      ensures Valid()
      ensures width == w && height == old(height)
      ensures cells == AllDead(w * height)
      ensures prevcells == old(prevcells) && mousedown == old(mousedown)
    {
      width := w;
      cells := AllDead(w * height);
    }

    /** Sets the height and clears the grid, symmetrically to SetWidth. */
    method SetHeight(h: nat)
      requires Valid()
      requires h <= MaxU32 && width * h <= MaxU32
      modifies this
      ensures Valid()
      ensures height == h && width == old(width)
      ensures cells == AllDead(width * h)
      ensures prevcells == old(prevcells) && mousedown == old(mousedown)
    {
      height := h;
      cells := AllDead(width * h);
    }

    /** The buffer offset of (row, column), computed in `u32` arithmetic,
        which wraps around modulo 2^32; for a position on the grid it does
        not wrap, it is the row-major offset inside the buffer, and its
        coordinates are the position. */
    function GetIndex(row: nat, column: nat): (i: nat)
      reads this
      requires Valid() && row <= MaxU32 && column <= MaxU32
      ensures i <= MaxU32
      ensures i == (row * width + column) % (MaxU32 + 1)
      ensures row < height && column < width ==>
        i == Index(width, height, row, column) && i < |cells| && CoordOf(width, height, i) == (row, column)
    {
      OffsetOnGrid(width, height, row, column);
      U32Offset(width, row, column)
    }

    /** The same offset, exposed to the host as a `u32`. */
    function GetCellIndex(row: nat, column: nat): (i: nat)
      reads this
      requires Valid() && row <= MaxU32 && column <= MaxU32
      ensures i <= MaxU32
      ensures i == (row * width + column) % (MaxU32 + 1)
      ensures row < height && column < width ==>
        i == Index(width, height, row, column) && CoordOf(width, height, i) == (row, column)
    {
      GetIndex(row, column)
    }

    /** Advances one generation: the old buffer becomes the previous
        generation and every cell is recomputed from the old buffer alone. */
    method Tick()
      requires Valid()
      modifies this
      ensures Valid()
      ensures width == old(width) && height == old(height) && mousedown == old(mousedown)
      ensures prevcells == old(cells)
      ensures cells == NextGeneration(old(cells), width, height)
    {
      prevcells := cells;
      var next := ComputeNext(cells, width, height);
      cells := next;
    }

    /** The row-by-row pass of a tick over a copy of the buffer: each cell's
        new state is written into the copy, while the census always reads
        the unmodified buffer. */
    static method ComputeNext(cells: seq<Cell>, w: nat, h: nat) returns (next: seq<Cell>)
      requires |cells| == w * h
      ensures next == NextGeneration(cells, w, h)
    {
      next := cells;
      ghost var gen := NextGeneration(cells, w, h);
      for row := 0 to h
        invariant |next| == |cells|
        invariant DoneBefore(next, gen, w, h, row, 0)
      {
        for col := 0 to w
          invariant |next| == |cells|
          invariant DoneBefore(next, gen, w, h, row, col)
        {
          var idx := Index(w, h, row, col);
          var cell := cells[idx];
          var neighbors := LiveNeighborCount(cells, w, h, row, col);
          NextGenerationAt(cells, w, h, row, col);
          DoneStep(next, gen, w, h, row, col, Rule(cell, neighbors));
          next := next[idx := Rule(cell, neighbors)];
        }
        DoneRow(next, gen, w, h, row);
      }
      DoneAll(next, gen, w, h);
    }

    /** Every cell before (row, col) in row-major order is already final. */
    static ghost predicate DoneBefore(next: seq<Cell>, gen: seq<Cell>, w: nat, h: nat, row: nat, col: nat)
      requires |next| == |gen| == w * h
    {
      forall i {:trigger next[i]} :: 0 <= i < |next| && InOrderBefore(CoordOf(w, h, i), row, col) ==>
        next[i] == gen[i]
    }

    static lemma DoneStep(next: seq<Cell>, gen: seq<Cell>, w: nat, h: nat, row: nat, col: nat, v: Cell)
      requires |next| == |gen| == w * h && row < h && col < w
      requires DoneBefore(next, gen, w, h, row, col)
      requires v == gen[Index(w, h, row, col)]
      ensures DoneBefore(next[Index(w, h, row, col) := v], gen, w, h, row, col + 1)
    {
      CoordOfIndex(w, h, row, col);
    }

    static lemma DoneRow(next: seq<Cell>, gen: seq<Cell>, w: nat, h: nat, row: nat)
      requires |next| == |gen| == w * h
      requires DoneBefore(next, gen, w, h, row, w)
      ensures DoneBefore(next, gen, w, h, row + 1, 0)
    {
    }

    static lemma DoneAll(next: seq<Cell>, gen: seq<Cell>, w: nat, h: nat)
      requires |next| == |gen| == w * h
      requires DoneBefore(next, gen, w, h, h, 0)
      ensures next == gen
    {
      forall i | 0 <= i < |next|
        ensures next[i] == gen[i]
      {
        var rc := CoordOf(w, h, i);
      }
    }

    /** Whether position rc comes before (row, col) in row-major order. */
    static predicate InOrderBefore(rc: (nat, nat), row: nat, col: nat) {
      rc.0 < row || (rc.0 == row && rc.1 < col)
    }

    /** Flips the one cell at the computed offset of (row, column); for a
        position on the grid that is the cell at the position. The offset
        must be inside the buffer (the engine panics otherwise). */
    method ToggleCell(row: nat, column: nat)
      requires Valid() && row <= MaxU32 && column <= MaxU32
      requires U32Offset(width, row, column) < |cells|
      modifies this
      ensures Valid()
      ensures width == old(width) && height == old(height)
      ensures cells == ToggleAt(old(cells), U32Offset(width, row, column))
      ensures prevcells == old(prevcells) && mousedown == old(mousedown)
    {
      var idx := GetIndex(row, column);
      cells := cells[idx := cells[idx].Toggle()];
    }

    /** Writes value into the one cell at the computed offset of
        (row, column) and leaves every other cell as it was. */
    method SetCellValue(row: nat, column: nat, value: Cell)
      requires Valid() && row <= MaxU32 && column <= MaxU32
      requires U32Offset(width, row, column) < |cells|
      modifies this
      ensures Valid()
      ensures width == old(width) && height == old(height)
      ensures |cells| == |old(cells)|
      ensures cells[U32Offset(width, row, column)] == value
      ensures forall j :: 0 <= j < |cells| && j != U32Offset(width, row, column) ==> cells[j] == old(cells)[j]
      ensures prevcells == old(prevcells) && mousedown == old(mousedown)
    {
      var idx := GetIndex(row, column);
      cells := cells[idx := value];
    }

    /** Makes the cell at the computed offset of every listed position Alive
        and leaves every other cell as it was. */
    method SetCells(coords: seq<(nat, nat)>)
      requires Valid()
      requires forall k :: 0 <= k < |coords| ==>
        coords[k].0 <= MaxU32 && coords[k].1 <= MaxU32 &&
        U32Offset(width, coords[k].0, coords[k].1) < |cells|
      modifies this
      ensures Valid()
      ensures width == old(width) && height == old(height)
      ensures |cells| == |old(cells)|
      ensures forall i :: 0 <= i < |cells| ==>
        cells[i] == if i in Targets(width, coords) then Alive else old(cells)[i]
      ensures prevcells == old(prevcells) && mousedown == old(mousedown)
    {
      for k := 0 to |coords|
        invariant Valid()
        invariant width == old(width) && height == old(height)
        invariant prevcells == old(prevcells) && mousedown == old(mousedown)
        invariant |cells| == |old(cells)|
        invariant forall i :: 0 <= i < |cells| ==>
          cells[i] == if i in Targets(width, coords[..k]) then Alive else old(cells)[i]
      {
        var idx := GetIndex(coords[k].0, coords[k].1);
        cells := cells[idx := Alive];
        assert coords[..k + 1][..k] == coords[..k];
      }
      assert coords[..|coords|] == coords;
    }

    /** Reseeds the grid at its current size; the outgoing buffer becomes the
        previous generation. */
    method ResetBoard(pattern: InitialPattern, draw: nat -> nat)
      requires Valid()
      modifies this
      ensures Valid()
      ensures width == old(width) && height == old(height) && mousedown == old(mousedown)
      ensures prevcells == old(cells)
      ensures cells == GenerateCells(width, height, pattern, draw)
    {
      var w := Width();
      var h := Height();
      prevcells := cells;
      cells := GenerateCells(w, h, pattern, draw);
    }
  }
}

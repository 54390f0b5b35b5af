/** The row-major layout of a toroidal grid and the pure rules of the game:
    neighbour census, Conway's rule, next generation, seeding. */
module Grid {
  import opened Cells

  /** The largest value of a `u32`, the width of the universe's dimensions
      and of the products computed from them. */
  const MaxU32: nat := 0xFFFF_FFFF

  /** The two seeding patterns the universe can be asked for; the seeding
      code ignores the choice. */
  datatype InitialPattern = Complex1 | Random5050

  // ---------------------------------------------------------------------
  // Layout

  lemma MulStrict(a: nat, b: nat, w: nat)
    requires a < b
    ensures a * w + w <= b * w
  {
    assert (b - a) * w >= w by {
      assert b - a >= 1;
    }
  }

  lemma DivModUnique(w: nat, row: nat, col: nat)
    requires col < w
    ensures (row * w + col) / w == row && (row * w + col) % w == col
  {
    var i := row * w + col;
    var q, m := i / w, i % w;
    assert i == q * w + m;
    if q < row {
      MulStrict(q, row, w);
    } else if row < q {
      MulStrict(row, q, w);
    }
  }

  /** Cell (row, col) of a grid of width w and height h lives at offset
      row * w + col, which is inside the buffer. */
  function Index(w: nat, h: nat, row: nat, col: nat): (i: nat)
    requires row < h && col < w
    ensures i < w * h
  {
    MulStrict(row, h, w);
    row * w + col
  }

  /** The coordinates of offset i, the inverse of Index. */
  function CoordOf(w: nat, h: nat, i: nat): (rc: (nat, nat))
    requires i < w * h
    ensures rc.0 < h && rc.1 < w
    ensures Index(w, h, rc.0, rc.1) == i
  {
    assert w > 0;
    var row, col := i / w, i % w;
    assert row * w <= i;
    (row, col)
  }

  /** Distinct positions have distinct offsets: the coordinates of a
      position's offset are the position itself. */
  lemma CoordOfIndex(w: nat, h: nat, row: nat, col: nat)
    requires row < h && col < w
    ensures CoordOf(w, h, Index(w, h, row, col)) == (row, col)
  {
    DivModUnique(w, row, col);
  }

  /** Reducing a product before adding to it does not change the sum's
      residue: u32 arithmetic may wrap after each operation. */
  lemma WrapSum(a: nat, b: nat)
    ensures ((a % (MaxU32 + 1)) + b) % (MaxU32 + 1) == (a + b) % (MaxU32 + 1)
  {
    var m := MaxU32 + 1;
    var q, q2, r := a / m, (a % m + b) / m, (a % m + b) % m;
    assert a + b == (q + q2) * m + r by {
      assert a == q * m + a % m;
      assert a % m + b == q2 * m + r;
      assert (q + q2) * m == q * m + q2 * m;
    }
    DivModUnique(m, q + q2, r);
  }

  /** The offset of (row, col) on a grid of width w as the engine computes
      it in `u32` arithmetic: a product that wraps modulo 2^32 and then a
      sum that wraps again, which is the exact offset reduced once. */
  function U32Offset(w: nat, row: nat, col: nat): (i: nat)
    ensures i <= MaxU32
    ensures i == (row * w + col) % (MaxU32 + 1)
  {
    WrapSum(row * w, col);
    ((row * w) % (MaxU32 + 1) + col) % (MaxU32 + 1)
  }

  /** For a position on a grid whose size fits a `u32` the computed offset
      does not wrap: it is the row-major offset of the position. */
  lemma OffsetOnGrid(w: nat, h: nat, row: nat, col: nat)
    requires w * h <= MaxU32
    ensures row < h && col < w ==>
      U32Offset(w, row, col) == Index(w, h, row, col) &&
      CoordOf(w, h, U32Offset(w, row, col)) == (row, col)
  {
    if row < h && col < w {
      DivModUnique(MaxU32 + 1, 0, Index(w, h, row, col));
      CoordOfIndex(w, h, row, col);
    }
  }

  /** The offsets the listed positions are written to, in `u32`
      arithmetic: the offset of every listed position, and nothing else. */
  function Targets(w: nat, coords: seq<(nat, nat)>): (t: set<nat>)
    ensures forall i :: i in t ==> i <= MaxU32
    ensures forall k :: 0 <= k < |coords| ==> U32Offset(w, coords[k].0, coords[k].1) in t
    ensures forall i :: i in t ==>
      exists k :: 0 <= k < |coords| && i == U32Offset(w, coords[k].0, coords[k].1)
  {
    if coords == [] then {}
    else
      var last := coords[|coords| - 1];
      var rest := Targets(w, coords[..|coords| - 1]);
      assert forall k :: 0 <= k < |coords| - 1 ==> coords[k] == coords[..|coords| - 1][k];
      rest + {U32Offset(w, last.0, last.1)}
  }

  /** When every listed position is on a grid whose size fits a `u32`, an
      offset is written exactly when its coordinates are listed. */
  lemma {:induction false} TargetsOnGrid(w: nat, h: nat, coords: seq<(nat, nat)>)
    requires w * h <= MaxU32
    requires forall k :: 0 <= k < |coords| ==> coords[k].0 < h && coords[k].1 < w
    ensures forall i :: 0 <= i < w * h ==> (i in Targets(w, coords) <==> CoordOf(w, h, i) in coords)
  {
    if coords != [] {
      var init, last := coords[..|coords| - 1], coords[|coords| - 1];
      TargetsOnGrid(w, h, init);
      OffsetOnGrid(w, h, last.0, last.1);
      assert coords == init + [last];
      forall i | 0 <= i < w * h
        ensures i in Targets(w, coords) <==> CoordOf(w, h, i) in coords
      {
        if i == U32Offset(w, last.0, last.1) {
          assert CoordOf(w, h, i) == last;
        } else {
          assert CoordOf(w, h, i) != last;
        }
      }
    }
  }

  /** A buffer that fits a w-by-h grid. */
  ghost predicate Shaped(cells: seq<Cell>, w: nat, h: nat) {
    w > 0 && h > 0 && |cells| == w * h
  }

  // ---------------------------------------------------------------------
  // Neighbour census, by modulus over the 3x3 window

  /** The eight offsets (dr, dc) of the 3x3 window other than (0, 0). */
  const Offsets: seq<(int, int)> :=
    [(-1, -1), (-1, 0), (-1, 1), (0, -1), (0, 1), (1, -1), (1, 0), (1, 1)]

  /** The cell at offset d from (row, col), the coordinates taken modulo the
      grid's height and width. */
  function NeighborAt(cells: seq<Cell>, w: nat, h: nat, row: int, col: int, d: (int, int)): Cell
    requires Shaped(cells, w, h)
  {
    cells[Index(w, h, (row + d.0) % h, (col + d.1) % w)]
  }

  /** How many of the cells at the given offsets are alive. Every offset
      contributes its own term, so a cell reached by two offsets is counted
      twice. */
  function CountAlive(cells: seq<Cell>, w: nat, h: nat, row: int, col: int, offsets: seq<(int, int)>): (n: nat)
    requires Shaped(cells, w, h)
    ensures n <= |offsets|
    ensures n == 0 <==> forall k :: 0 <= k < |offsets| ==> NeighborAt(cells, w, h, row, col, offsets[k]) == Dead
    decreases |offsets|
  {
    if offsets == [] then 0
    else
      var rest := CountAlive(cells, w, h, row, col, offsets[1..]);
      assert forall k :: 1 <= k < |offsets| ==> offsets[k] == offsets[1..][k - 1];
      NeighborAt(cells, w, h, row, col, offsets[0]).Value() + rest
  }

  /** The reference neighbour count of (row, col): the number of live cells
      among ((row + dr) mod h, (col + dc) mod w) over the eight offsets. */
  function NeighborsSpec(cells: seq<Cell>, w: nat, h: nat, row: int, col: int): (n: nat)
    requires Shaped(cells, w, h)
    ensures n <= 8
  {
    CountAlive(cells, w, h, row, col, Offsets)
  }

  /** The census written out term by term, one term per offset. */
  lemma NeighborsSpecUnfolded(cells: seq<Cell>, w: nat, h: nat, row: int, col: int)
    requires Shaped(cells, w, h)
    ensures NeighborsSpec(cells, w, h, row, col) ==
      NeighborAt(cells, w, h, row, col, (-1, -1)).Value() +
      NeighborAt(cells, w, h, row, col, (-1, 0)).Value() +
      NeighborAt(cells, w, h, row, col, (-1, 1)).Value() +
      NeighborAt(cells, w, h, row, col, (0, -1)).Value() +
      NeighborAt(cells, w, h, row, col, (0, 1)).Value() +
      NeighborAt(cells, w, h, row, col, (1, -1)).Value() +
      NeighborAt(cells, w, h, row, col, (1, 0)).Value() +
      NeighborAt(cells, w, h, row, col, (1, 1)).Value()
  {
    var o := Offsets;
    assert o[1..][1..][1..][1..][1..][1..][1..][1..] == [];
  }

  /** Stepping one place left or right around a ring of n positions without a
      modulus, as the engine does, lands where the modulus does. */
  lemma WrapSteps(x: nat, n: nat, before: nat, after: nat)
    requires x < n
    requires before == if x == 0 then n - 1 else x - 1
    requires after == if x == n - 1 then 0 else x + 1
    ensures (x + -1) % n == before && (x + 0) % n == x && (x + 1) % n == after
  {
    if x == 0 {
      assert -1 == (-1) * n + (n - 1);
    }
    if x == n - 1 {
      assert x + 1 == 1 * n + 0;
    }
  }

  /** The census taken the engine's way: with the rows above and below and
      the columns left and right found by stepping with explicit
      wrap-around, the eight lookups give the reference count. */
  lemma SteppedCensus(cells: seq<Cell>, w: nat, h: nat, row: nat, col: nat,
                      up: nat, down: nat, left: nat, right: nat)
    requires Shaped(cells, w, h) && row < h && col < w
    requires up == if row == 0 then h - 1 else row - 1
    requires down == if row == h - 1 then 0 else row + 1
    requires left == if col == 0 then w - 1 else col - 1
    requires right == if col == w - 1 then 0 else col + 1
    ensures NeighborsSpec(cells, w, h, row, col) ==
      cells[Index(w, h, up, left)].Value() +
      cells[Index(w, h, up, col)].Value() +
      cells[Index(w, h, up, right)].Value() +
      cells[Index(w, h, row, left)].Value() +
      cells[Index(w, h, row, right)].Value() +
      cells[Index(w, h, down, left)].Value() +
      cells[Index(w, h, down, col)].Value() +
      cells[Index(w, h, down, right)].Value()
  {
    WrappedNeighbors(cells, w, h, row, col, up, down, left, right);
    NeighborsSpecUnfolded(cells, w, h, row, col);
  }

  /** The eight wrapped neighbours are the cells on the stepped rows and
      columns. */
  lemma WrappedNeighbors(cells: seq<Cell>, w: nat, h: nat, row: nat, col: nat,
                         up: nat, down: nat, left: nat, right: nat)
    requires Shaped(cells, w, h) && row < h && col < w
    requires up == if row == 0 then h - 1 else row - 1
    requires down == if row == h - 1 then 0 else row + 1
    requires left == if col == 0 then w - 1 else col - 1
    requires right == if col == w - 1 then 0 else col + 1
    ensures NeighborAt(cells, w, h, row, col, (-1, -1)) == cells[Index(w, h, up, left)]
    ensures NeighborAt(cells, w, h, row, col, (-1, 0)) == cells[Index(w, h, up, col)]
    ensures NeighborAt(cells, w, h, row, col, (-1, 1)) == cells[Index(w, h, up, right)]
    ensures NeighborAt(cells, w, h, row, col, (0, -1)) == cells[Index(w, h, row, left)]
    ensures NeighborAt(cells, w, h, row, col, (0, 1)) == cells[Index(w, h, row, right)]
    ensures NeighborAt(cells, w, h, row, col, (1, -1)) == cells[Index(w, h, down, left)]
    ensures NeighborAt(cells, w, h, row, col, (1, 0)) == cells[Index(w, h, down, col)]
    ensures NeighborAt(cells, w, h, row, col, (1, 1)) == cells[Index(w, h, down, right)]
  {
    WrapSteps(row, h, up, down);
    WrapSteps(col, w, left, right);
    NeighborAtWrapped(cells, w, h, row, col, -1, -1, up, left);
    NeighborAtWrapped(cells, w, h, row, col, -1, 0, up, col);
    NeighborAtWrapped(cells, w, h, row, col, -1, 1, up, right);
    NeighborAtWrapped(cells, w, h, row, col, 0, -1, row, left);
    NeighborAtWrapped(cells, w, h, row, col, 0, 1, row, right);
    NeighborAtWrapped(cells, w, h, row, col, 1, -1, down, left);
    NeighborAtWrapped(cells, w, h, row, col, 1, 0, down, col);
    NeighborAtWrapped(cells, w, h, row, col, 1, 1, down, right);
  }

  lemma NeighborAtWrapped(cells: seq<Cell>, w: nat, h: nat, row: int, col: int, dr: int, dc: int, r: nat, c: nat)
    requires Shaped(cells, w, h) && r < h && c < w
    requires (row + dr) % h == r && (col + dc) % w == c
    ensures NeighborAt(cells, w, h, row, col, (dr, dc)) == cells[Index(w, h, r, c)]
  {
  }

  /** One term of the engine's census, written as the source writes it: the
      conditional 1-if-Alive-else-0 rather than the cell's stored byte. Its
      contract shows the conditional is that byte, `Cell.Value`. */
  function LiveOne(c: Cell): (b: nat)
    ensures b == c.Value()
  {
    if c == Alive then 1 else 0
  }

  /** The engine's census of (row, col): the rows above and below and the
      columns left and right are found by stepping with explicit wrap-around
      instead of a modulus, and the eight cells around are summed; the count
      is the reference census. */
  function LiveNeighborCount(cells: seq<Cell>, w: nat, h: nat, row: nat, col: nat): (n: nat)
    requires |cells| == w * h && row < h && col < w
    ensures n <= 8
    ensures n == NeighborsSpec(cells, w, h, row, col)
  {
    var up := if row == 0 then h - 1 else row - 1;
    var down := if row == h - 1 then 0 else row + 1;
    var left := if col == 0 then w - 1 else col - 1;
    var right := if col == w - 1 then 0 else col + 1;
    var count :=
      LiveOne(cells[Index(w, h, up, left)])
      + LiveOne(cells[Index(w, h, up, col)])
      + LiveOne(cells[Index(w, h, up, right)])
      + LiveOne(cells[Index(w, h, row, left)])
      + LiveOne(cells[Index(w, h, row, right)])
      + LiveOne(cells[Index(w, h, down, left)])
      + LiveOne(cells[Index(w, h, down, col)])
      + LiveOne(cells[Index(w, h, down, right)]);
    SteppedCensus(cells, w, h, row, col, up, down, left, right);
    count
  }

  /** The grid is a torus: the cell after the last row and column is the
      first one, so a live top-left cell is a neighbour of the bottom-right
      cell. */
  lemma CornersTouch(cells: seq<Cell>, w: nat, h: nat)
    requires Shaped(cells, w, h)
    ensures NeighborAt(cells, w, h, h - 1, w - 1, (1, 1)) == cells[Index(w, h, 0, 0)]
    ensures NeighborAt(cells, w, h, 0, 0, (-1, -1)) == cells[Index(w, h, h - 1, w - 1)]
    ensures cells[Index(w, h, 0, 0)] == Alive ==> NeighborsSpec(cells, w, h, h - 1, w - 1) >= 1
  {
    WrapSteps(h - 1, h, if h == 1 then 0 else h - 2, 0);
    WrapSteps(w - 1, w, if w == 1 then 0 else w - 2, 0);
    WrapSteps(0, h, h - 1, if h == 1 then 0 else 1);
    WrapSteps(0, w, w - 1, if w == 1 then 0 else 1);
    NeighborAtWrapped(cells, w, h, h - 1, w - 1, 1, 1, 0, 0);
    NeighborAtWrapped(cells, w, h, 0, 0, -1, -1, h - 1, w - 1);
    assert Offsets[7] == (1, 1);
  }

  /** Offsets are counted with multiplicity: on a 1-by-1 grid every offset
      lands on the cell itself, so a lone live cell has eight live
      neighbours. */
  lemma LoneCellCountsItself(cells: seq<Cell>)
    requires cells == [Alive]
    ensures NeighborsSpec(cells, 1, 1, 0, 0) == 8
  {
    NeighborsSpecUnfolded(cells, 1, 1, 0, 0);
  }

  // ---------------------------------------------------------------------
  // Transition

  /** Conway's rule, tried in the engine's order: underpopulation, survival,
      overpopulation, reproduction, otherwise no change. The outcome is the
      B3/S23 rule: alive next exactly with three neighbours, or alive now
      with two. */
  function Rule(cell: Cell, neighbors: nat): (next: Cell)
    ensures next == Alive <==> neighbors == 3 || (cell == Alive && neighbors == 2)
  {
    if cell == Alive && neighbors < 2 then Dead
    else if cell == Alive && (neighbors == 2 || neighbors == 3) then Alive
    else if cell == Alive && neighbors > 3 then Dead
    else if cell == Dead && neighbors == 3 then Alive
    else assert cell == Dead; cell
  }

  /** The next state of the cell at (row, col): the rule applied to its
      current state and its census. */
  function NextCell(cells: seq<Cell>, w: nat, h: nat, row: nat, col: nat): Cell
    requires |cells| == w * h && row < h && col < w
  {
    Rule(cells[Index(w, h, row, col)], NeighborsSpec(cells, w, h, row, col))
  }

  /** The next generation of a w-by-h grid: every cell is the rule applied
      to its own state and its census in the current buffer. */
  function NextGeneration(cells: seq<Cell>, w: nat, h: nat): (next: seq<Cell>)
    requires |cells| == w * h
    ensures |next| == |cells|
  {
    seq(|cells|, i requires 0 <= i < |cells| =>
      var rc := CoordOf(w, h, i);
      NextCell(cells, w, h, rc.0, rc.1))
  }

  /** Each cell of the next generation depends only on the same cell and its
      wrapped census in the current generation. */
  lemma NextGenerationAt(cells: seq<Cell>, w: nat, h: nat, row: nat, col: nat)
    requires |cells| == w * h && row < h && col < w
    ensures NextGeneration(cells, w, h)[Index(w, h, row, col)] ==
      Rule(cells[Index(w, h, row, col)], NeighborsSpec(cells, w, h, row, col))
  {
    CoordOfIndex(w, h, row, col);
  }

  lemma NextGenerationOfEmpty(cells: seq<Cell>, w: nat, h: nat)
    requires |cells| == w * h && (w == 0 || h == 0)
    ensures NextGeneration(cells, w, h) == cells == []
  {
  }

  // ---------------------------------------------------------------------
  // Seeding and editing helpers

  /** A w-by-h buffer as `generate_cells` fills it: cell i is Alive exactly
      when the i-th draw of `gen_range(0, 20)`, given as draw(i), is 0; the
      pattern has no effect. */
  function GenerateCells(w: nat, h: nat, pattern: InitialPattern, draw: nat -> nat): (cells: seq<Cell>)
    ensures |cells| == w * h
    ensures forall i :: 0 <= i < |cells| ==> (cells[i] == Alive <==> draw(i) == 0)
  {
    seq(w * h, i requires 0 <= i < w * h => if draw(i) == 0 then Alive else Dead)
  }

  /** A buffer of n Dead cells, what a resize leaves behind. */
  function AllDead(n: nat): (cells: seq<Cell>)
    ensures |cells| == n
    ensures forall i :: 0 <= i < n ==> cells[i] == Dead
  {
    seq(n, _ => Dead)
  }

  /** The buffer with cell i toggled and every other cell as it was. */
  function ToggleAt(cells: seq<Cell>, i: nat): (r: seq<Cell>)
    requires i < |cells|
    ensures |r| == |cells|
    ensures r[i] != cells[i]
    ensures forall j :: 0 <= j < |cells| && j != i ==> r[j] == cells[j]
  {
    cells[i := cells[i].Toggle()]
  }

  lemma ToggleAtTwice(cells: seq<Cell>, i: nat)
    requires i < |cells|
    ensures ToggleAt(ToggleAt(cells, i), i) == cells
  {
    ToggleTwice(cells[i]);
  }

  /** A w-by-h grid whose live cells are exactly the listed coordinates. */
  function Board(w: nat, h: nat, live: seq<(nat, nat)>): (cells: seq<Cell>)
    ensures |cells| == w * h
  {
    seq(w * h, i requires 0 <= i < w * h => if CoordOf(w, h, i) in live then Alive else Dead)
  }
}

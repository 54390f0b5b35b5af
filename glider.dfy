/** The spaceship fixture of the browser test suite: on a 6-by-6 torus one
    tick moves the glider one row down, and a universe that is resized to
    6 by 6, given the input cells and ticked holds exactly the cells of a
    universe given the expected ones. */
module Glider {
  import opened Cells
  import opened Grid
  import opened Life

  /** The live cells of the input spaceship, as (row, column). */
  const Input: seq<(nat, nat)> := [(1, 2), (2, 3), (3, 1), (3, 2), (3, 3)]

  /** The live cells the test expects after one tick. */
  const Expected: seq<(nat, nat)> := [(2, 1), (2, 3), (3, 2), (3, 3), (4, 2)]

  // The proof below is split cell by cell on purpose. When one proof
  // obligation holds the census of many cells, or relates NextGeneration
  // to a literal list of coordinates, it grows too large for the solver.
  // So each board is first restated as 36 explicit cell facts (InputShape,
  // ExpectedShape, proved for Board by the row lemmas). Then each of the 36
  // next-generation cells gets its own small lemma. That lemma supplies
  // the cell's wrapped neighbours and its live count, and
  // NextFromNeighbors checks the count against the board. Below36 lets
  // ExpectedShapeUnique compare two boards offset by offset.

  /** A 6-by-6 buffer holding the input spaceship, offset by offset, one
      line per row. The census of the cells is taken against these explicit
      facts rather than against the coordinate list. */
  ghost predicate InputShape(cells: seq<Cell>) {
    |cells| == 36 &&
    cells[0] == Dead && cells[1] == Dead && cells[2] == Dead && cells[3] == Dead && cells[4] == Dead && cells[5] == Dead &&
    cells[6] == Dead && cells[7] == Dead && cells[8] == Alive && cells[9] == Dead && cells[10] == Dead && cells[11] == Dead &&
    cells[12] == Dead && cells[13] == Dead && cells[14] == Dead && cells[15] == Alive && cells[16] == Dead && cells[17] == Dead &&
    cells[18] == Dead && cells[19] == Alive && cells[20] == Alive && cells[21] == Alive && cells[22] == Dead && cells[23] == Dead &&
    cells[24] == Dead && cells[25] == Dead && cells[26] == Dead && cells[27] == Dead && cells[28] == Dead && cells[29] == Dead &&
    cells[30] == Dead && cells[31] == Dead && cells[32] == Dead && cells[33] == Dead && cells[34] == Dead && cells[35] == Dead
  }

  /** A 6-by-6 buffer holding the expected spaceship. */
  ghost predicate ExpectedShape(cells: seq<Cell>) {
    |cells| == 36 &&
    cells[0] == Dead && cells[1] == Dead && cells[2] == Dead && cells[3] == Dead && cells[4] == Dead && cells[5] == Dead &&
    cells[6] == Dead && cells[7] == Dead && cells[8] == Dead && cells[9] == Dead && cells[10] == Dead && cells[11] == Dead &&
    cells[12] == Dead && cells[13] == Alive && cells[14] == Dead && cells[15] == Alive && cells[16] == Dead && cells[17] == Dead &&
    cells[18] == Dead && cells[19] == Dead && cells[20] == Alive && cells[21] == Alive && cells[22] == Dead && cells[23] == Dead &&
    cells[24] == Dead && cells[25] == Dead && cells[26] == Alive && cells[27] == Dead && cells[28] == Dead && cells[29] == Dead &&
    cells[30] == Dead && cells[31] == Dead && cells[32] == Dead && cells[33] == Dead && cells[34] == Dead && cells[35] == Dead
  }

  lemma InputRow0()
    ensures Board(6, 6, Input)[0] == Dead
    ensures Board(6, 6, Input)[1] == Dead
    ensures Board(6, 6, Input)[2] == Dead
    ensures Board(6, 6, Input)[3] == Dead
    ensures Board(6, 6, Input)[4] == Dead
    ensures Board(6, 6, Input)[5] == Dead
  {
  }

  lemma InputRow1()
    ensures Board(6, 6, Input)[6] == Dead
    ensures Board(6, 6, Input)[7] == Dead
    ensures Board(6, 6, Input)[8] == Alive
    ensures Board(6, 6, Input)[9] == Dead
    ensures Board(6, 6, Input)[10] == Dead
    ensures Board(6, 6, Input)[11] == Dead
  {
  }

  lemma InputRow2()
    ensures Board(6, 6, Input)[12] == Dead
    ensures Board(6, 6, Input)[13] == Dead
    ensures Board(6, 6, Input)[14] == Dead
    ensures Board(6, 6, Input)[15] == Alive
    ensures Board(6, 6, Input)[16] == Dead
    ensures Board(6, 6, Input)[17] == Dead
  {
  }

  lemma InputRow3()
    ensures Board(6, 6, Input)[18] == Dead
    ensures Board(6, 6, Input)[19] == Alive
    ensures Board(6, 6, Input)[20] == Alive
    ensures Board(6, 6, Input)[21] == Alive
    ensures Board(6, 6, Input)[22] == Dead
    ensures Board(6, 6, Input)[23] == Dead
  {
  }

  lemma InputRow4()
    ensures Board(6, 6, Input)[24] == Dead
    ensures Board(6, 6, Input)[25] == Dead
    ensures Board(6, 6, Input)[26] == Dead
    ensures Board(6, 6, Input)[27] == Dead
    ensures Board(6, 6, Input)[28] == Dead
    ensures Board(6, 6, Input)[29] == Dead
  {
  }

  lemma InputRow5()
    ensures Board(6, 6, Input)[30] == Dead
    ensures Board(6, 6, Input)[31] == Dead
    ensures Board(6, 6, Input)[32] == Dead
    ensures Board(6, 6, Input)[33] == Dead
    ensures Board(6, 6, Input)[34] == Dead
    ensures Board(6, 6, Input)[35] == Dead
  {
  }

  /** The board built from the input coordinates has the input shape. */
  lemma InputBoard()
    ensures InputShape(Board(6, 6, Input))
  {
    InputRow0();
    InputRow1();
    InputRow2();
    InputRow3();
    InputRow4();
    InputRow5();
  }

  lemma ExpectedRow0()
    ensures Board(6, 6, Expected)[0] == Dead
    ensures Board(6, 6, Expected)[1] == Dead
    ensures Board(6, 6, Expected)[2] == Dead
    ensures Board(6, 6, Expected)[3] == Dead
    ensures Board(6, 6, Expected)[4] == Dead
    ensures Board(6, 6, Expected)[5] == Dead
  {
  }

  lemma ExpectedRow1()
    ensures Board(6, 6, Expected)[6] == Dead
    ensures Board(6, 6, Expected)[7] == Dead
    ensures Board(6, 6, Expected)[8] == Dead
    ensures Board(6, 6, Expected)[9] == Dead
    ensures Board(6, 6, Expected)[10] == Dead
    ensures Board(6, 6, Expected)[11] == Dead
  {
  }

  lemma ExpectedRow2()
    ensures Board(6, 6, Expected)[12] == Dead
    ensures Board(6, 6, Expected)[13] == Alive
    ensures Board(6, 6, Expected)[14] == Dead
    ensures Board(6, 6, Expected)[15] == Alive
    ensures Board(6, 6, Expected)[16] == Dead
    ensures Board(6, 6, Expected)[17] == Dead
  {
  }

  lemma ExpectedRow3()
    ensures Board(6, 6, Expected)[18] == Dead
    ensures Board(6, 6, Expected)[19] == Dead
    ensures Board(6, 6, Expected)[20] == Alive
    ensures Board(6, 6, Expected)[21] == Alive
    ensures Board(6, 6, Expected)[22] == Dead
    ensures Board(6, 6, Expected)[23] == Dead
  {
  }

  lemma ExpectedRow4()
    ensures Board(6, 6, Expected)[24] == Dead
    ensures Board(6, 6, Expected)[25] == Dead
    ensures Board(6, 6, Expected)[26] == Alive
    ensures Board(6, 6, Expected)[27] == Dead
    ensures Board(6, 6, Expected)[28] == Dead
    ensures Board(6, 6, Expected)[29] == Dead
  {
  }

  lemma ExpectedRow5()
    ensures Board(6, 6, Expected)[30] == Dead
    ensures Board(6, 6, Expected)[31] == Dead
    ensures Board(6, 6, Expected)[32] == Dead
    ensures Board(6, 6, Expected)[33] == Dead
    ensures Board(6, 6, Expected)[34] == Dead
    ensures Board(6, 6, Expected)[35] == Dead
  {
  }

  /** The board built from the expected coordinates has the expected shape. */
  lemma ExpectedBoard()
    ensures ExpectedShape(Board(6, 6, Expected))
  {
    ExpectedRow0();
    ExpectedRow1();
    ExpectedRow2();
    ExpectedRow3();
    ExpectedRow4();
    ExpectedRow5();
  }

  /** The next state of a cell from its own state and the live count of
      the eight cells around it, the rows above and below and the columns
      left and right wrapping around the edges. */
  lemma NextFromNeighbors(cells: seq<Cell>, w: nat, h: nat, r: nat, c: nat,
                          up: nat, down: nat, left: nat, right: nat, n: nat)
    requires |cells| == w * h && r < h && c < w
    requires up == if r == 0 then h - 1 else r - 1
    requires down == if r == h - 1 then 0 else r + 1
    requires left == if c == 0 then w - 1 else c - 1
    requires right == if c == w - 1 then 0 else c + 1
    requires n == cells[Index(w, h, up, left)].Value() + cells[Index(w, h, up, c)].Value() +
      cells[Index(w, h, up, right)].Value() + cells[Index(w, h, r, left)].Value() +
      cells[Index(w, h, r, right)].Value() + cells[Index(w, h, down, left)].Value() +
      cells[Index(w, h, down, c)].Value() + cells[Index(w, h, down, right)].Value()
    ensures NextGeneration(cells, w, h)[Index(w, h, r, c)] == Rule(cells[Index(w, h, r, c)], n)
  {
    SteppedCensus(cells, w, h, r, c, up, down, left, right);
    NextGenerationAt(cells, w, h, r, c);
  }

  lemma NextOfInput00(cells: seq<Cell>)
    requires InputShape(cells)
    ensures NextGeneration(cells, 6, 6)[0] == Dead
  {
    NextFromNeighbors(cells, 6, 6, 0, 0, 5, 1, 5, 1, 0);
  }

  lemma NextOfInput01(cells: seq<Cell>)
    requires InputShape(cells)
    ensures NextGeneration(cells, 6, 6)[1] == Dead
  {
    NextFromNeighbors(cells, 6, 6, 0, 1, 5, 1, 0, 2, 1);
  }

  lemma NextOfInput02(cells: seq<Cell>)
    requires InputShape(cells)
    ensures NextGeneration(cells, 6, 6)[2] == Dead
  {
    NextFromNeighbors(cells, 6, 6, 0, 2, 5, 1, 1, 3, 1);
  }

  lemma NextOfInput03(cells: seq<Cell>)
    requires InputShape(cells)
    ensures NextGeneration(cells, 6, 6)[3] == Dead
  {
    NextFromNeighbors(cells, 6, 6, 0, 3, 5, 1, 2, 4, 1);
  }

  lemma NextOfInput04(cells: seq<Cell>)
    requires InputShape(cells)
    ensures NextGeneration(cells, 6, 6)[4] == Dead
  {
    NextFromNeighbors(cells, 6, 6, 0, 4, 5, 1, 3, 5, 0);
  }

  lemma NextOfInput05(cells: seq<Cell>)
    requires InputShape(cells)
    ensures NextGeneration(cells, 6, 6)[5] == Dead
  {
    NextFromNeighbors(cells, 6, 6, 0, 5, 5, 1, 4, 0, 0);
  }

  lemma NextOfInput10(cells: seq<Cell>)
    requires InputShape(cells)
    ensures NextGeneration(cells, 6, 6)[6] == Dead
  {
    NextFromNeighbors(cells, 6, 6, 1, 0, 0, 2, 5, 1, 0);
  }

  lemma NextOfInput11(cells: seq<Cell>)
    requires InputShape(cells)
    ensures NextGeneration(cells, 6, 6)[7] == Dead
  {
    NextFromNeighbors(cells, 6, 6, 1, 1, 0, 2, 0, 2, 1);
  }

  lemma NextOfInput12(cells: seq<Cell>)
    requires InputShape(cells)
    ensures NextGeneration(cells, 6, 6)[8] == Dead
  {
    NextFromNeighbors(cells, 6, 6, 1, 2, 0, 2, 1, 3, 1);
  }

  lemma NextOfInput13(cells: seq<Cell>)
    requires InputShape(cells)
    ensures NextGeneration(cells, 6, 6)[9] == Dead
  {
    NextFromNeighbors(cells, 6, 6, 1, 3, 0, 2, 2, 4, 2);
  }

  lemma NextOfInput14(cells: seq<Cell>)
    requires InputShape(cells)
    ensures NextGeneration(cells, 6, 6)[10] == Dead
  {
    NextFromNeighbors(cells, 6, 6, 1, 4, 0, 2, 3, 5, 1);
  }

  lemma NextOfInput15(cells: seq<Cell>)
    requires InputShape(cells)
    ensures NextGeneration(cells, 6, 6)[11] == Dead
  {
    NextFromNeighbors(cells, 6, 6, 1, 5, 0, 2, 4, 0, 0);
  }

  lemma NextOfInput20(cells: seq<Cell>)
    requires InputShape(cells)
    ensures NextGeneration(cells, 6, 6)[12] == Dead
  {
    NextFromNeighbors(cells, 6, 6, 2, 0, 1, 3, 5, 1, 1);
  }

  lemma NextOfInput21(cells: seq<Cell>)
    requires InputShape(cells)
    ensures NextGeneration(cells, 6, 6)[13] == Alive
  {
    NextFromNeighbors(cells, 6, 6, 2, 1, 1, 3, 0, 2, 3);
  }

  lemma NextOfInput22(cells: seq<Cell>)
    requires InputShape(cells)
    ensures NextGeneration(cells, 6, 6)[14] == Dead
  {
    NextFromNeighbors(cells, 6, 6, 2, 2, 1, 3, 1, 3, 5);
  }

  lemma NextOfInput23(cells: seq<Cell>)
    requires InputShape(cells)
    ensures NextGeneration(cells, 6, 6)[15] == Alive
  {
    NextFromNeighbors(cells, 6, 6, 2, 3, 1, 3, 2, 4, 3);
  }

  lemma NextOfInput24(cells: seq<Cell>)
    requires InputShape(cells)
    ensures NextGeneration(cells, 6, 6)[16] == Dead
  {
    NextFromNeighbors(cells, 6, 6, 2, 4, 1, 3, 3, 5, 2);
  }

  lemma NextOfInput25(cells: seq<Cell>)
    requires InputShape(cells)
    ensures NextGeneration(cells, 6, 6)[17] == Dead
  {
    NextFromNeighbors(cells, 6, 6, 2, 5, 1, 3, 4, 0, 0);
  }

  lemma NextOfInput30(cells: seq<Cell>)
    requires InputShape(cells)
    ensures NextGeneration(cells, 6, 6)[18] == Dead
  {
    NextFromNeighbors(cells, 6, 6, 3, 0, 2, 4, 5, 1, 1);
  }

  lemma NextOfInput31(cells: seq<Cell>)
    requires InputShape(cells)
    ensures NextGeneration(cells, 6, 6)[19] == Dead
  {
    NextFromNeighbors(cells, 6, 6, 3, 1, 2, 4, 0, 2, 1);
  }

  lemma NextOfInput32(cells: seq<Cell>)
    requires InputShape(cells)
    ensures NextGeneration(cells, 6, 6)[20] == Alive
  {
    NextFromNeighbors(cells, 6, 6, 3, 2, 2, 4, 1, 3, 3);
  }

  lemma NextOfInput33(cells: seq<Cell>)
    requires InputShape(cells)
    ensures NextGeneration(cells, 6, 6)[21] == Alive
  {
    NextFromNeighbors(cells, 6, 6, 3, 3, 2, 4, 2, 4, 2);
  }

  lemma NextOfInput34(cells: seq<Cell>)
    requires InputShape(cells)
    ensures NextGeneration(cells, 6, 6)[22] == Dead
  {
    NextFromNeighbors(cells, 6, 6, 3, 4, 2, 4, 3, 5, 2);
  }

  lemma NextOfInput35(cells: seq<Cell>)
    requires InputShape(cells)
    ensures NextGeneration(cells, 6, 6)[23] == Dead
  {
    NextFromNeighbors(cells, 6, 6, 3, 5, 2, 4, 4, 0, 0);
  }

  lemma NextOfInput40(cells: seq<Cell>)
    requires InputShape(cells)
    ensures NextGeneration(cells, 6, 6)[24] == Dead
  {
    NextFromNeighbors(cells, 6, 6, 4, 0, 3, 5, 5, 1, 1);
  }

  lemma NextOfInput41(cells: seq<Cell>)
    requires InputShape(cells)
    ensures NextGeneration(cells, 6, 6)[25] == Dead
  {
    NextFromNeighbors(cells, 6, 6, 4, 1, 3, 5, 0, 2, 2);
  }

  lemma NextOfInput42(cells: seq<Cell>)
    requires InputShape(cells)
    ensures NextGeneration(cells, 6, 6)[26] == Alive
  {
    NextFromNeighbors(cells, 6, 6, 4, 2, 3, 5, 1, 3, 3);
  }

  lemma NextOfInput43(cells: seq<Cell>)
    requires InputShape(cells)
    ensures NextGeneration(cells, 6, 6)[27] == Dead
  {
    NextFromNeighbors(cells, 6, 6, 4, 3, 3, 5, 2, 4, 2);
  }

  lemma NextOfInput44(cells: seq<Cell>)
    requires InputShape(cells)
    ensures NextGeneration(cells, 6, 6)[28] == Dead
  {
    NextFromNeighbors(cells, 6, 6, 4, 4, 3, 5, 3, 5, 1);
  }

  lemma NextOfInput45(cells: seq<Cell>)
    requires InputShape(cells)
    ensures NextGeneration(cells, 6, 6)[29] == Dead
  {
    NextFromNeighbors(cells, 6, 6, 4, 5, 3, 5, 4, 0, 0);
  }

  lemma NextOfInput50(cells: seq<Cell>)
    requires InputShape(cells)
    ensures NextGeneration(cells, 6, 6)[30] == Dead
  {
    NextFromNeighbors(cells, 6, 6, 5, 0, 4, 0, 5, 1, 0);
  }

  lemma NextOfInput51(cells: seq<Cell>)
    requires InputShape(cells)
    ensures NextGeneration(cells, 6, 6)[31] == Dead
  {
    NextFromNeighbors(cells, 6, 6, 5, 1, 4, 0, 0, 2, 0);
  }

  lemma NextOfInput52(cells: seq<Cell>)
    requires InputShape(cells)
    ensures NextGeneration(cells, 6, 6)[32] == Dead
  {
    NextFromNeighbors(cells, 6, 6, 5, 2, 4, 0, 1, 3, 0);
  }

  lemma NextOfInput53(cells: seq<Cell>)
    requires InputShape(cells)
    ensures NextGeneration(cells, 6, 6)[33] == Dead
  {
    NextFromNeighbors(cells, 6, 6, 5, 3, 4, 0, 2, 4, 0);
  }

  lemma NextOfInput54(cells: seq<Cell>)
    requires InputShape(cells)
    ensures NextGeneration(cells, 6, 6)[34] == Dead
  {
    NextFromNeighbors(cells, 6, 6, 5, 4, 4, 0, 3, 5, 0);
  }

  lemma NextOfInput55(cells: seq<Cell>)
    requires InputShape(cells)
    ensures NextGeneration(cells, 6, 6)[35] == Dead
  {
    NextFromNeighbors(cells, 6, 6, 5, 5, 4, 0, 4, 0, 0);
  }

  /** Cell by cell, the next generation of the input shape is the expected
      shape. */
  lemma NextOfInput(cells: seq<Cell>)
    requires InputShape(cells)
    ensures ExpectedShape(NextGeneration(cells, 6, 6))
  {
    NextOfInput00(cells);
    NextOfInput01(cells);
    NextOfInput02(cells);
    NextOfInput03(cells);
    NextOfInput04(cells);
    NextOfInput05(cells);
    NextOfInput10(cells);
    NextOfInput11(cells);
    NextOfInput12(cells);
    NextOfInput13(cells);
    NextOfInput14(cells);
    NextOfInput15(cells);
    NextOfInput20(cells);
    NextOfInput21(cells);
    NextOfInput22(cells);
    NextOfInput23(cells);
    NextOfInput24(cells);
    NextOfInput25(cells);
    NextOfInput30(cells);
    NextOfInput31(cells);
    NextOfInput32(cells);
    NextOfInput33(cells);
    NextOfInput34(cells);
    NextOfInput35(cells);
    NextOfInput40(cells);
    NextOfInput41(cells);
    NextOfInput42(cells);
    NextOfInput43(cells);
    NextOfInput44(cells);
    NextOfInput45(cells);
    NextOfInput50(cells);
    NextOfInput51(cells);
    NextOfInput52(cells);
    NextOfInput53(cells);
    NextOfInput54(cells);
    NextOfInput55(cells);
  }

  lemma Below36(i: int)
    requires 0 <= i < 36
    ensures i == 0 || i == 1 || i == 2 || i == 3 || i == 4 || i == 5 || i == 6 || i == 7 || i == 8 || i == 9 || i == 10 || i == 11 || i == 12 || i == 13 || i == 14 || i == 15 || i == 16 || i == 17 || i == 18 || i == 19 || i == 20 || i == 21 || i == 22 || i == 23 || i == 24 || i == 25 || i == 26 || i == 27 || i == 28 || i == 29 || i == 30 || i == 31 || i == 32 || i == 33 || i == 34 || i == 35
  {
  }

  /** The expected shape fixes the whole buffer. */
  lemma ExpectedShapeUnique(a: seq<Cell>, b: seq<Cell>)
    requires ExpectedShape(a) && ExpectedShape(b)
    ensures a == b
  {
    forall i | 0 <= i < 36
      ensures a[i] == b[i]
    {
      Below36(i);
    }
  }

  /** One tick turns the input spaceship into the expected one. */
  lemma GliderAdvances()
    ensures NextGeneration(Board(6, 6, Input), 6, 6) == Board(6, 6, Expected)
  {
    InputBoard();
    NextOfInput(Board(6, 6, Input));
    ExpectedBoard();
    ExpectedShapeUnique(NextGeneration(Board(6, 6, Input), 6, 6), Board(6, 6, Expected));
  }

  /** A universe set up as the test's fixtures are: created, resized to 6
      by 6 (which clears it) and given the listed live cells. */
  method Spaceship(draw: nat -> nat, live: seq<(nat, nat)>) returns (u: Universe)
    requires forall k :: 0 <= k < |live| ==> live[k].0 < 6 && live[k].1 < 6
    ensures fresh(u) && u.Valid()
    ensures u.width == 6 && u.height == 6
    ensures u.cells == Board(6, 6, live)
  {
    u := new Universe(draw);
    u.SetWidth(6);
    u.SetHeight(6);
    forall k | 0 <= k < |live|
      ensures U32Offset(6, live[k].0, live[k].1) < 36
    {
      OffsetOnGrid(6, 6, live[k].0, live[k].1);
    }
    u.SetCells(live);
    TargetsOnGrid(6, 6, live);
    forall i | 0 <= i < 36
      ensures u.cells[i] == Board(6, 6, live)[i]
    {
    }
  }

  /** The test itself: the ticked input universe and the expected universe
      hold the same cells, and those are the expected spaceship. */
  method TestTick(draw: nat -> nat) returns (ticked: seq<Cell>, expected: seq<Cell>)
    ensures ticked == expected
    ensures ticked == Board(6, 6, Expected)
  {
    var inputUniverse := Spaceship(draw, Input);
    var expectedUniverse := Spaceship(draw, Expected);
    inputUniverse.Tick();
    GliderAdvances();
    ticked := inputUniverse.GetCells();
    expected := expectedUniverse.GetCells();
  }
}

/** The state of one cell of the universe. */
module Cells {

  /** A cell is one byte: Dead is stored as 0 and Alive as 1, so that live cells
      can be counted by summing the bytes. */
  datatype Cell = Dead | Alive {

    /** The byte the cell is stored as. */
    function Value(): (b: nat)
      ensures b <= 1
      ensures b == 1 <==> this == Alive
    {
      match this
      case Dead => 0
      case Alive => 1
    }

    /** The other state: the new value `Cell::toggle` writes. */
    function Toggle(): (t: Cell)
      ensures t != this
    {
      match this
      case Dead => Alive
      case Alive => Dead
    }
  }

  lemma ToggleTwice(c: Cell)
    ensures c.Toggle().Toggle() == c
  {
  }

  /** The buffer with every cell flipped, which the constructor stores as the
      previous generation so that the first redraw repaints every cell. */
  function InvertCells(cells: seq<Cell>): (r: seq<Cell>)
    ensures |r| == |cells|
    ensures forall i :: 0 <= i < |cells| ==> r[i] != cells[i]
  {
    seq(|cells|, i requires 0 <= i < |cells| => if cells[i] == Alive then Dead else Alive)
  }

  lemma InvertInvolutive(cells: seq<Cell>)
    ensures InvertCells(InvertCells(cells)) == cells
  {
    var twice := InvertCells(InvertCells(cells));
    forall i | 0 <= i < |cells|
      ensures twice[i] == cells[i]
    {
      assert twice[i] != InvertCells(cells)[i] && InvertCells(cells)[i] != cells[i];
    }
  }
}

// A single cell of the Game of Life board: a stable number, assigned in
// row-major order when the board is built, and a binary life state.
module Cells {

  /** A cell. The board never shares a cell between two positions, so an
      assignment to a cell's state is modelled as replacing the cell value
      stored at its position. */
  datatype Cell = Cell(cellNumber: int, cellState: bool) {

    /** The state as a number: 1 for a live cell and 0 for a dead one. */
    function IsAlive(): (v: int)
      ensures v == 0 || v == 1
      ensures v == 1 <==> cellState
    {
      if cellState then 1 else 0
    }

    /** The cell after a manual toggle request for cell number `n`: the
        state flips when the numbers match and nothing else changes. */
    function Toggle(n: int): (t: Cell)
      ensures t.cellNumber == cellNumber
      ensures t.cellState != cellState <==> cellNumber == n
    {
      if cellNumber == n then this.(cellState := !cellState) else this
    }
  }
}

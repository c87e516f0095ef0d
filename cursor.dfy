/** The cursor of a buffer: a position plus the sticky column for vertical moves. */
module Cursors {
  import opened Wrappers

  datatype Position = Position(row: nat, col: nat)

  /**
   * `row` is a line index, `col` a byte offset within that line and
   * `desiredCol` the column vertical moves try to return to.
   */
  datatype CursorState = CursorState(
    row: nat,
    col: nat,
    desiredCol: nat,
    selection: Option<(Position, Position)>)
  {
    /** The cursor's (row, col) pair. */
    function Pos(): (p: Position)
      ensures p.row == row && p.col == col
    {
      Position(row, col)
    }

    /** Jumps to (r, c), making c the sticky column; the selection is kept. */
    function MoveTo(r: nat, c: nat): (s: CursorState)
      ensures s.Pos() == Position(r, c) && s.desiredCol == c
      ensures s.selection == selection
    {
      this.(row := r, col := c, desiredCol := c)
    }

    /** Drops the selection and nothing else. */
    function ClearSelection(): (s: CursorState)
      ensures s.selection == None
      ensures s.row == row && s.col == col && s.desiredCol == desiredCol
    {
      this.(selection := None)
    }
  }

  const DefaultCursor := CursorState(0, 0, 0, None)
}

/** One square of the board. */
module CellRecord {

  /**
   * A cell knows its own coordinates, which never change. Whether it is a
   * mine, flagged or revealed, and its count of mined neighbours, are fields
   * that the game engine assigns in place.
   */
  class Cell {
    const r: int
    const c: int
    var isMine: bool
    var isFlagged: bool
    var adj: int
    var isRevealed: bool

    /** A fresh cell at (r, c): no mine, no flag, not revealed, no mined neighbours counted. */
    constructor (r: int, c: int)
      ensures this.r == r && this.c == c
      ensures !isMine && !isFlagged && adj == 0 && !isRevealed
    {
      this.r := r;
      this.c := c;
      isMine := false;
      isFlagged := false;
      adj := 0;
      isRevealed := false;
    }
  }
}

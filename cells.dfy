/**
 * A single board tile. cell.model.ts is not part of this model: the shape
 * (x, y, playable, player, value) and the two operations below are assumed.
 */
module Cells {
  import opened Players

  datatype Cell = Cell(x: int, y: int, playable: bool, player: Player, value: nat)

  /** Cell.EmptyCell: a playable cell nobody owns. */
  function EmptyCell(x: int, y: int): Cell
  {
    Cell(x, y, true, Nobody, 0)
  }

  /** Cell.UnplayableCell: a hole in the board. */
  function UnplayableCell(x: int, y: int): Cell
  {
    Cell(x, y, false, Nobody, 0)
  }

  /** Assumed cell.increment(p): `p` takes the cell and its value grows by one. */
  function Increment(c: Cell, p: Player): Cell
  {
    c.(player := p, value := c.value + 1)
  }

  /** Assumed cell.explode(): the value drops to 0 and the owner is kept. */
  function Explode(c: Cell): Cell
  {
    c.(value := 0)
  }

  /** Owned by one of the four players (the first filter of analyse). */
  predicate IsOwned(c: Cell)
  {
    c.player != Nobody
  }

  /** Owned, and holding exactly 4 (the two filters of analyse). */
  predicate IsCritical(c: Cell)
  {
    IsOwned(c) && c.value == 4
  }
}

/**
 * The board: playability mask, cell grid, turn state and eliminated slots
 * (frontend/clonium-web/src/app/shared/models/board.model.ts).
 */
module BoardModel {
  import opened Wrappers
  import opened Players
  import opened Cells
  import opened Layouts
  import opened Grid

  /** The nested map of the constructor: an empty cell where the mask is set, a hole elsewhere. */
  function BuildGrid(m: Mask): (g: Grid)
    ensures WellFormed(m, g)
    ensures forall y, x :: 0 <= y < |g| && 0 <= x < |g[y]| ==> g[y][x].player == Nobody && g[y][x].value == 0
  {
    seq(|m|, y requires 0 <= y < |m| =>
      seq(|m[y]|, x requires 0 <= x < |m[y]| => if m[y][x] then EmptyCell(x, y) else UnplayableCell(x, y)))
  }

  class Board {
    const width: int
    const height: int
    const playableCells: Mask
    /** Where the board sits inside the 12 x 12 frame that getCell addresses. */
    const offsetX: int
    const offsetY: int
    const playersNumber: int

    var playedCells: Grid
    var currentState: GameState
    var lostPlayers: set<GameState>
    /** Online-lobby headcount; only the lobby subscriptions change it. */
    var presentPlayers: int

    ghost predicate Valid()
      reads this
    {
      && 1 <= width <= MaxWidth && 1 <= height <= MaxHeight
      && IsMask(playableCells, width, height)
      && WellFormed(playableCells, playedCells)
      && offsetX == (MaxWidth - width) / 2 && offsetY == (MaxHeight - height) / 2
      && 2 <= playersNumber <= 4
      && lostPlayers <= ActiveSlots(playersNumber)
      && currentState != Undefined
    }

    /**
     * A fresh board of the given shape: every cell unowned at 0, player 1 to
     * move, nobody eliminated.
     */
    constructor(width: int, height: int, playableCells: Mask, playersNumber: int)
      requires 1 <= width <= MaxWidth && 1 <= height <= MaxHeight
      requires IsMask(playableCells, width, height)
      requires 2 <= playersNumber <= 4
      ensures Valid()
      ensures this.width == width && this.height == height && this.playableCells == playableCells
      ensures this.playersNumber == playersNumber
      ensures playedCells == BuildGrid(playableCells)
      ensures currentState == Turn1 && lostPlayers == {} && presentPlayers == 0
    {
      this.width := width;
      this.height := height;
      this.playableCells := playableCells;
      this.playersNumber := playersNumber;
      playedCells := BuildGrid(playableCells);
      offsetX := (MaxWidth - width) / 2;
      offsetY := (MaxHeight - height) / 2;
      currentState := Turn1;
      lostPlayers := {};
      presentPlayers := 0;
    }

    /**
     * getCell: the cell at (x, y) of the 12 x 12 frame, shifted by the
     * offsets; None where the shifted position is off the board.
     */
    function GetCell(x: int, y: int): (r: Option<Cell>)
      reads this
      requires Valid()
      ensures r.Some? <==> 0 <= x + offsetX < width && 0 <= y + offsetY < height
      ensures r.Some? ==> r.value.x == x + offsetX && r.value.y == y + offsetY
      ensures r.Some? ==> r.value.playable == playableCells[y + offsetY][x + offsetX]
      ensures r.Some? ==> r.value in Flatten(playedCells)
    {
      var p := Pos(x + offsetX, y + offsetY);
      if InBounds(playedCells, p) then
        FlattenHasAllGridCells(playedCells, p.y, p.x);
        Some(Get(playedCells, p))
      else None
    }

    /** getCell agrees with direct indexing on every cell exactly when both offsets vanish. */
    lemma GetCellIsDirect()
      requires Valid()
      ensures (forall y, x :: 0 <= y < height && 0 <= x < width ==> GetCell(x, y) == Some(playedCells[y][x]))
              <==> width >= MaxWidth - 1 && height >= MaxHeight - 1
    {
      if width >= MaxWidth - 1 && height >= MaxHeight - 1 {
        assert offsetX == 0 && offsetY == 0;
        forall y, x | 0 <= y < height && 0 <= x < width ensures GetCell(x, y) == Some(playedCells[y][x]) {
          assert InBounds(playedCells, Pos(x, y));
        }
      } else {
        assert offsetX > 0 || offsetY > 0;
        var r := GetCell(0, 0);
        assert r.Some? ==> r.value.x != 0 || r.value.y != 0;
        assert playedCells[0][0].x == 0 && playedCells[0][0].y == 0;
        assert r != Some(playedCells[0][0]);
      }
    }

    /**
     * getCellNeighbors, bounded by the board: the cells at the positions
     * NeighborPositions finds, in its order.
     */
    function GetCellNeighbors(cell: Cell): (r: seq<Cell>)
      reads this
      requires Valid()
      ensures |r| == |NeighborPositions(playableCells, cell.x, cell.y)|
      ensures forall i :: 0 <= i < |r| ==>
        var p := NeighborPositions(playableCells, cell.x, cell.y)[i];
        InBounds(playableCells, p) && PosOf(r[i]) == p && r[i] == Get(playedCells, p)
    {
      NeighborPositionsSound(playableCells, cell.x, cell.y);
      var ps, g := NeighborPositions(playableCells, cell.x, cell.y), playedCells;
      seq(|ps|, i requires 0 <= i < |ps| => Get(g, ps[i]))
    }

    /**
     * The neighbours getCellNeighbors returns are the playable cells west,
     * north, east and south of `cell`, each once and in that order, as they
     * stand on the board.
     */
    lemma GetCellNeighborsSpec(cell: Cell)
      requires Valid()
      ensures var r := GetCellNeighbors(cell);
        && |r| <= 4
        && (forall i :: 0 <= i < |r| ==> IsNeighbor(playableCells, PosOf(cell), PosOf(r[i])) && r[i] == Get(playedCells, PosOf(r[i])))
        && (forall q :: IsNeighbor(playableCells, PosOf(cell), q) ==> Get(playedCells, q) in r)
        && (forall i, j :: 0 <= i < j < |r| ==> Direction(PosOf(cell), PosOf(r[i])) < Direction(PosOf(cell), PosOf(r[j])))
    {
      var r, ps := GetCellNeighbors(cell), NeighborPositions(playableCells, cell.x, cell.y);
      NeighborPositionsSpec(playableCells, cell.x, cell.y);
      forall q | IsNeighbor(playableCells, PosOf(cell), q) ensures Get(playedCells, q) in r {
        var i :| 0 <= i < |ps| && ps[i] == q;
        assert r[i] == Get(playedCells, q);
      }
    }

    /** setCell: replaces the cell at (x, y) and no other. */
    method SetCell(x: int, y: int, c: Cell)
      requires Valid()
      requires 0 <= y < height && 0 <= x < width
      requires c.x == x && c.y == y && c.playable == playableCells[y][x]
      modifies this`playedCells
      ensures Valid()
      ensures playedCells == Set(old(playedCells), Pos(x, y), c)
      ensures forall q :: InBounds(playedCells, q) ==> Get(playedCells, q) == if q == Pos(x, y) then c else old(Get(playedCells, q))
    {
      SetKeepsWellFormed(playableCells, playedCells, Pos(x, y), c);
      playedCells := Set(playedCells, Pos(x, y), c);
    }
  }
}

/**
 * The frozen record the second solver reads (`src/solver/maze_data.py`).
 */
module Maze {
  import opened Walls
  import opened Grids

  /** The five fields of the frozen dataclass; none is ever reassigned. */
  datatype MazeData = MazeData(gridResult: Grid, width: int, height: int, entry: Cell, exit: Cell)
  {
    /** Every cell inside the `width` x `height` bounds can be read from `gridResult`. */
    ghost predicate Covers() {
      forall c :: InGrid(c, width, height) ==> Holds(gridResult, c)
    }

    /** `get_walls`: the cell's mask inside the bounds, a solid block (15) outside. */
    function GetWalls(x: int, y: int): (r: Mask)
      requires Covers()
      ensures InGrid((x, y), width, height) ==> r == At(gridResult, (x, y))
      ensures !InGrid((x, y), width, height) ==> r == ALL_WALLS
    {
      if 0 <= x < width && 0 <= y < height then
        assert Holds(gridResult, (x, y));
        gridResult[y][x]
      else 15
    }
  }

  /** Off the grid every wall bit is set, in every direction. */
  lemma OffGridAllWalls(m: MazeData, c: Cell, d: Dir)
    requires m.Covers() && !InGrid(c, m.width, m.height)
    ensures HasWall(m.GetWalls(c.0, c.1), d)
  {
    AllWallsClosed(d);
  }

  /** A rectangular grid of the record's own size covers its bounds. */
  lemma RectCovers(m: MazeData)
    requires IsRect(m.gridResult, m.width, m.height)
    ensures m.Covers()
  {
  }
}

/**
 * The maze grid: `height` rows of `width` masks, row-major, indexed `grid[y][x]`,
 * and walks through it.
 */
module Grids {
  import opened Walls

  type Grid = seq<seq<Mask>>

  /** Python's `range(n)` is empty for a negative `n`. */
  function Clamp(n: int): nat {
    if n < 0 then 0 else n
  }

  /** `g` has `height` rows of `width` cells (negative sizes give no rows or no columns). */
  predicate IsRect(g: Grid, width: int, height: int) {
    |g| == Clamp(height) && forall y :: 0 <= y < |g| ==> |g[y]| == Clamp(width)
  }

  predicate InGrid(c: Cell, width: int, height: int) {
    0 <= c.0 < width && 0 <= c.1 < height
  }

  /** `g[c.1][c.0]` can be read. */
  predicate Holds(g: Grid, c: Cell) {
    0 <= c.1 < |g| && 0 <= c.0 < |g[c.1]|
  }

  function At(g: Grid, c: Cell): Mask
    requires Holds(g, c)
  {
    g[c.1][c.0]
  }

  /**
   * A move the open-wall solvers take: the wall bit toward `d` is clear on `c`
   * and both ends lie inside the `width` x `height` rectangle.
   */
  predicate Open(g: Grid, width: int, height: int, c: Cell, d: Dir) {
    InGrid(c, width, height) && InGrid(Step(c, d), width, height) && Holds(g, c)
    && !HasWall(At(g, c), d)
  }

  /** Every letter of `p`, replayed from `c`, is an `Open` move. */
  predicate OpenWalk(g: Grid, width: int, height: int, c: Cell, p: string)
    decreases |p|
  {
    if p == [] then true
    else
      var q := p[..|p| - 1];
      OpenWalk(g, width, height, c, q) && IsLetter(p[|p| - 1])
      && Open(g, width, height, EndOf(c, q), DirOf(p[|p| - 1]).value)
  }

  /** Extending an open walk by one open move. */
  lemma OpenWalkSnoc(g: Grid, width: int, height: int, c: Cell, p: string, d: Dir)
    requires OpenWalk(g, width, height, c, p)
    requires Open(g, width, height, EndOf(c, p), d)
    ensures OpenWalk(g, width, height, c, p + [Letter(d)])
    ensures EndOf(c, p + [Letter(d)]) == Step(EndOf(c, p), d)
  {
    assert (p + [Letter(d)])[..|p|] == p;
  }

  /** An open walk from a cell inside the grid never leaves it. */
  lemma {:induction false} OpenWalkInGrid(g: Grid, width: int, height: int, c: Cell, p: string)
    requires InGrid(c, width, height)
    requires OpenWalk(g, width, height, c, p)
    ensures InGrid(EndOf(c, p), width, height)
    decreases |p|
  {
    if p != [] {
      OpenWalkInGrid(g, width, height, c, p[..|p| - 1]);
    }
  }

  /** A set that contains `c` and is closed under open moves contains the end of every open walk from `c`. */
  lemma {:induction false} ClosedSetContainsWalks(g: Grid, width: int, height: int, c: Cell, cells: set<Cell>, p: string)
    requires c in cells
    requires forall a, d :: a in cells && Open(g, width, height, a, d) ==> Step(a, d) in cells
    requires OpenWalk(g, width, height, c, p)
    ensures EndOf(c, p) in cells
    decreases |p|
  {
    if p != [] {
      ClosedSetContainsWalks(g, width, height, c, cells, p[..|p| - 1]);
    }
  }

  /** `g2` has a subset of the walls of `g1`, cell by cell. */
  predicate FewerWalls(g2: Grid, g1: Grid) {
    |g2| == |g1|
    && (forall y :: 0 <= y < |g1| ==> |g2[y]| == |g1[y]|)
    && forall y, x, d :: 0 <= y < |g1| && 0 <= x < |g1[y]| && HasWall(g2[y][x], d) ==> HasWall(g1[y][x], d)
  }

  lemma FewerWallsTrans(g3: Grid, g2: Grid, g1: Grid)
    requires FewerWalls(g3, g2) && FewerWalls(g2, g1)
    ensures FewerWalls(g3, g1)
  {
  }

  /** Opening walls keeps every open walk open. */
  lemma {:induction false} OpenWalkMonotone(g1: Grid, g2: Grid, width: int, height: int, c: Cell, p: string)
    requires FewerWalls(g2, g1)
    requires OpenWalk(g1, width, height, c, p)
    ensures OpenWalk(g2, width, height, c, p)
    decreases |p|
  {
    if p != [] {
      OpenWalkMonotone(g1, g2, width, height, c, p[..|p| - 1]);
    }
  }

  /** Every coordinate of the grid. */
  function AllCells(width: int, height: int): set<Cell> {
    set x, y | 0 <= x < width && 0 <= y < height :: (x, y)
  }

  function RowCells(width: int, y: int): set<Cell> {
    set x | 0 <= x < width :: (x, y)
  }

  lemma {:induction false} RowCellsCard(width: nat, y: int)
    ensures |RowCells(width, y)| == width
  {
    if width > 0 {
      RowCellsCard(width - 1, y);
      assert RowCells(width, y) == RowCells(width - 1, y) + {(width - 1, y)};
    } else {
      assert RowCells(width, y) == {};
    }
  }

  /** A `width` x `height` grid has `width * height` cells. */
  lemma {:induction false} AllCellsCard(width: nat, height: nat)
    ensures |AllCells(width, height)| == width * height
  {
    if height > 0 {
      var h := height - 1;
      AllCellsCard(width, h);
      RowCellsCard(width, h);
      AllCellsSplit(width, h);
      assert |AllCells(width, height)| == width * h + width;
      assert width * h + width == width * height;
    } else {
      assert AllCells(width, height) == {};
    }
  }

  lemma AllCellsSplit(width: nat, h: nat)
    ensures AllCells(width, h + 1) == AllCells(width, h) + RowCells(width, h)
    ensures AllCells(width, h) !! RowCells(width, h)
    ensures |AllCells(width, h + 1)| == |AllCells(width, h)| + |RowCells(width, h)|
  {
    assert AllCells(width, h + 1) == AllCells(width, h) + RowCells(width, h);
    assert AllCells(width, h) !! RowCells(width, h);
  }

  /** A set of grid cells holding (0,0) and closed under in-grid neighbours holds every cell. */
  lemma ClosedUnderNeighboursIsAll(cells: set<Cell>, width: int, height: int)
    requires width > 0 && height > 0 ==> (0, 0) in cells
    requires forall a, d :: a in cells && InGrid(a, width, height) && InGrid(Step(a, d), width, height) ==> Step(a, d) in cells
    ensures AllCells(width, height) <= cells
  {
    forall c | c in AllCells(width, height)
      ensures c in cells
    {
      ReachedByInduction(cells, width, height, c.0, c.1);
    }
  }

  lemma {:induction false} ReachedByInduction(cells: set<Cell>, width: int, height: int, x: int, y: int)
    requires (0, 0) in cells || width <= 0 || height <= 0
    requires forall a, d :: a in cells && InGrid(a, width, height) && InGrid(Step(a, d), width, height) ==> Step(a, d) in cells
    requires InGrid((x, y), width, height)
    ensures (x, y) in cells
    decreases x + y
  {
    if x > 0 {
      ReachedByInduction(cells, width, height, x - 1, y);
      assert Step((x - 1, y), E) == (x, y);
    } else if y > 0 {
      ReachedByInduction(cells, width, height, x, y - 1);
      assert Step((x, y - 1), S) == (x, y);
    }
  }
}

/**
 * `MazeGenerator`: an iterative randomized depth-first backtracker that carves a
 * perfect maze into a fully walled grid, clearing the mirrored wall bits of each
 * pair of cells it connects.
 */
module Generator {
  import opened Wrappers
  import opened Walls
  import opened Grids

  /** The fresh grid: `height` rows of `width` cells, every one `ALL_WALLS`. */
  function AllWalls(width: int, height: int): (g: Grid)
    ensures IsRect(g, width, height)
    ensures forall y, x :: 0 <= y < |g| && 0 <= x < |g[y]| ==> g[y][x] == ALL_WALLS
  {
    seq(Clamp(height), _ => seq(Clamp(width), _ => ALL_WALLS))
  }

  /** The wall toward `d` of cell `c` is present exactly when the neighbour's opposite wall is. */
  ghost predicate Mirrored(g: Grid, width: int, height: int)
    requires IsRect(g, width, height)
  {
    forall c, d {:trigger Step(c, d)} :: InGrid(c, width, height) && InGrid(Step(c, d), width, height) ==>
      (HasWall(At(g, c), d) <==> HasWall(At(g, Step(c, d)), Opp(d)))
  }

  /** Every wall that faces outside the rectangle is closed. */
  ghost predicate OuterWallsClosed(g: Grid, width: int, height: int)
    requires IsRect(g, width, height)
  {
    forall c, d {:trigger Step(c, d)} :: InGrid(c, width, height) && !InGrid(Step(c, d), width, height) ==>
      HasWall(At(g, c), d)
  }

  /**
   * An edge between two adjacent cells, named by its west or north cell:
   * `(x, y, true)` joins (x,y) and (x+1,y), `(x, y, false)` joins (x,y) and (x,y+1).
   */
  type Edge = (int, int, bool)

  function EdgeDir(horizontal: bool): Dir {
    if horizontal then E else S
  }

  function EdgeOf(c: Cell, d: Dir): Edge {
    match d
    case N => (c.0, c.1 - 1, false)
    case E => (c.0, c.1, true)
    case S => (c.0, c.1, false)
    case W => (c.0 - 1, c.1, true)
  }

  /** The edges whose wall is open, read from the west or north cell. */
  function OpenEdges(g: Grid, width: int, height: int): set<Edge>
    requires IsRect(g, width, height)
  {
    set x, y, h: bool | 0 <= x < width && 0 <= y < height
      && InGrid(Step((x, y), EdgeDir(h)), width, height) && !HasWall(At(g, (x, y)), EdgeDir(h)) :: (x, y, h)
  }

  /** An edge is open when both its cells lie in the grid and the west or north cell's wall is clear. */
  lemma InOpenEdges(g: Grid, width: int, height: int, e: Edge)
    requires IsRect(g, width, height)
    ensures e in OpenEdges(g, width, height) <==>
      var b: Cell := (e.0, e.1);
      InGrid(b, width, height) && InGrid(Step(b, EdgeDir(e.2)), width, height) && !HasWall(At(g, b), EdgeDir(e.2))
  {
    var b: Cell := (e.0, e.1);
    if InGrid(b, width, height) && InGrid(Step(b, EdgeDir(e.2)), width, height) && !HasWall(At(g, b), EdgeDir(e.2)) {
      assert e == (e.0, e.1, e.2);
    }
  }

  ghost predicate Reachable(g: Grid, width: int, height: int, from: Cell, to: Cell) {
    exists p :: OpenWalk(g, width, height, from, p) && EndOf(from, p) == to
  }

  /** The in-bounds neighbours of `c` that are not in `visited`, in the order of `dirs`. */
  function Unvisited(c: Cell, width: int, height: int, visited: set<Cell>, dirs: seq<Dir>): (r: seq<Dir>)
    ensures forall d :: d in r <==> d in dirs && InGrid(Step(c, d), width, height) && Step(c, d) !in visited
    decreases |dirs|
  {
    if dirs == [] then []
    else
      var d := dirs[|dirs| - 1];
      var r0 := Unvisited(c, width, height, visited, dirs[..|dirs| - 1]);
      assert dirs == dirs[..|dirs| - 1] + [d];
      if InGrid(Step(c, d), width, height) && Step(c, d) !in visited then r0 + [d] else r0
  }

  /** The `for wall, (dx, dy, opp) in DIRECTIONS.items()` loop that lists the carving candidates. */
  method CollectUnvisited(c: Cell, width: int, height: int, visited: set<Cell>) returns (unvisited: seq<Dir>)
    ensures unvisited == Unvisited(c, width, height, visited, Order)
  {
    unvisited := [];
    for i := 0 to |Order|
      invariant unvisited == Unvisited(c, width, height, visited, Order[..i])
    {
      var d := Order[i];
      assert Order[..i + 1][..i] == Order[..i];
      var next := Step(c, d);
      if 0 <= next.0 < width && 0 <= next.1 < height {
        if next !in visited {
          unvisited := unvisited + [d];
        }
      }
    }
    assert Order[..|Order|] == Order;
  }

  /** The grid after `grid[cy][cx] &= ~wall` and `grid[ny][nx] &= ~opp`. */
  function Carve(g: Grid, c: Cell, d: Dir): Grid
    requires Holds(g, c) && Holds(g, Step(c, d))
  {
    var n := Step(c, d);
    var g1 := g[c.1 := g[c.1][c.0 := Clear(g[c.1][c.0], d)]];
    g1[n.1 := g1[n.1][n.0 := Clear(g1[n.1][n.0], Opp(d))]]
  }

  /** `g2` is `g` with the wall from `c` toward `d` knocked down on both sides. */
  ghost predicate Carves(g: Grid, g2: Grid, c: Cell, d: Dir) {
    Holds(g, c) && Holds(g, Step(c, d)) && g2 == Carve(g, c, d)
  }

  lemma CarveCells(g: Grid, width: int, height: int, c: Cell, d: Dir)
    requires IsRect(g, width, height)
    requires InGrid(c, width, height) && InGrid(Step(c, d), width, height)
    ensures IsRect(Carve(g, c, d), width, height)
    ensures forall x, y :: InGrid((x, y), width, height) && (x, y) != c && (x, y) != Step(c, d) ==>
      Carve(g, c, d)[y][x] == g[y][x]
    ensures Carve(g, c, d)[c.1][c.0] == Clear(g[c.1][c.0], d)
    ensures var n := Step(c, d); Carve(g, c, d)[n.1][n.0] == Clear(g[n.1][n.0], Opp(d))
  {
  }

  /** The wall `(a, d')` is one of the two bits a carve from `c` toward `d` clears. */
  predicate Carved(c: Cell, d: Dir, a: Cell, d': Dir) {
    (a == c && d' == d) || (a == Step(c, d) && d' == Opp(d))
  }

  /** Bit by bit, `g2` is `g` with the two mirrored walls of the carve from `c` toward `d` cleared. */
  ghost predicate CarvedGrid(g: Grid, g2: Grid, width: int, height: int, c: Cell, d: Dir)
    requires IsRect(g, width, height) && IsRect(g2, width, height)
  {
    forall a, d' :: InGrid(a, width, height) ==>
      (HasWall(At(g2, a), d') <==> HasWall(At(g, a), d') && !Carved(c, d, a, d'))
  }

  lemma CarveBits(g: Grid, width: int, height: int, c: Cell, d: Dir)
    requires IsRect(g, width, height)
    requires InGrid(c, width, height) && InGrid(Step(c, d), width, height)
    ensures IsRect(Carve(g, c, d), width, height)
    ensures CarvedGrid(g, Carve(g, c, d), width, height, c, d)
  {
    CarveCells(g, width, height, c, d);
  }

  lemma CarvedSymmetric(c: Cell, d: Dir, a: Cell, d': Dir)
    ensures Carved(c, d, a, d') <==> Carved(c, d, Step(a, d'), Opp(d'))
  {
    StepBack(a, d');
    StepBack(c, d);
  }

  lemma MirroredAt(g: Grid, g2: Grid, width: int, height: int, c: Cell, d: Dir, a: Cell, d': Dir)
    requires IsRect(g, width, height) && IsRect(g2, width, height)
    requires Mirrored(g, width, height) && CarvedGrid(g, g2, width, height, c, d)
    requires InGrid(a, width, height) && InGrid(Step(a, d'), width, height)
    ensures HasWall(At(g2, a), d') <==> HasWall(At(g2, Step(a, d')), Opp(d'))
  {
    var m := Step(a, d');
    assert HasWall(At(g, a), d') == HasWall(At(g, m), Opp(d'));
    CarvedSymmetric(c, d, a, d');
  }

  /** After a carve the walls stay mirrored. */
  lemma MirroredAfterCarve(g: Grid, g2: Grid, width: int, height: int, c: Cell, d: Dir)
    requires IsRect(g, width, height) && IsRect(g2, width, height)
    requires Mirrored(g, width, height)
    requires InGrid(c, width, height) && InGrid(Step(c, d), width, height)
    requires CarvedGrid(g, g2, width, height, c, d)
    ensures Mirrored(g2, width, height)
  {
    forall a, d' | InGrid(a, width, height) && InGrid(Step(a, d'), width, height)
      ensures HasWall(At(g2, a), d') <==> HasWall(At(g2, Step(a, d')), Opp(d'))
    {
      MirroredAt(g, g2, width, height, c, d, a, d');
    }
  }
  /** After a carve the walls toward the outside stay closed. */
  lemma OuterWallsAfterCarve(g: Grid, g2: Grid, width: int, height: int, c: Cell, d: Dir)
    requires IsRect(g, width, height) && IsRect(g2, width, height)
    requires OuterWallsClosed(g, width, height)
    requires InGrid(c, width, height) && InGrid(Step(c, d), width, height)
    requires CarvedGrid(g, g2, width, height, c, d)
    ensures OuterWallsClosed(g2, width, height)
  {
    forall a, d' | InGrid(a, width, height) && !InGrid(Step(a, d'), width, height)
      ensures HasWall(At(g2, a), d')
    {
      StepBack(c, d);
      assert !Carved(c, d, a, d');
    }
  }
  /** A carve only removes walls. */
  lemma FewerWallsAfterCarve(g: Grid, g2: Grid, width: int, height: int, c: Cell, d: Dir)
    requires IsRect(g, width, height) && IsRect(g2, width, height)
    requires InGrid(c, width, height) && InGrid(Step(c, d), width, height)
    requires CarvedGrid(g, g2, width, height, c, d)
    ensures FewerWalls(g2, g)
  {
    forall y, x, d' | 0 <= y < |g| && 0 <= x < |g[y]| && HasWall(g2[y][x], d')
      ensures HasWall(g[y][x], d')
    {
      assert InGrid((x, y), width, height);
      assert HasWall(At(g2, (x, y)), d');
    }
  }
  lemma EdgeAt(g: Grid, g2: Grid, width: int, height: int, c: Cell, d: Dir, e: Edge)
    requires IsRect(g, width, height) && IsRect(g2, width, height)
    requires InGrid(c, width, height) && InGrid(Step(c, d), width, height)
    requires CarvedGrid(g, g2, width, height, c, d)
    ensures e in OpenEdges(g2, width, height) <==> e in OpenEdges(g, width, height) || e == EdgeOf(c, d)
  {
    var b: Cell := (e.0, e.1);
    InOpenEdges(g, width, height, e);
    InOpenEdges(g2, width, height, e);
    StepBack(c, d);
    if Carved(c, d, b, EdgeDir(e.2)) {
      assert e == EdgeOf(c, d);
    }
    if e == EdgeOf(c, d) {
      assert Carved(c, d, b, EdgeDir(e.2));
    }
    if InGrid(b, width, height) && InGrid(Step(b, EdgeDir(e.2)), width, height) {
      assert HasWall(At(g2, b), EdgeDir(e.2)) <==> HasWall(At(g, b), EdgeDir(e.2)) && !Carved(c, d, b, EdgeDir(e.2));
    }
  }

  lemma EdgesAfterCarve(g: Grid, g2: Grid, width: int, height: int, c: Cell, d: Dir)
    requires IsRect(g, width, height) && IsRect(g2, width, height)
    requires InGrid(c, width, height) && InGrid(Step(c, d), width, height)
    requires CarvedGrid(g, g2, width, height, c, d)
    ensures OpenEdges(g2, width, height) == OpenEdges(g, width, height) + {EdgeOf(c, d)}
  {
    forall e ensures e in OpenEdges(g2, width, height) <==> e in OpenEdges(g, width, height) || e == EdgeOf(c, d) {
      EdgeAt(g, g2, width, height, c, d, e);
    }
  }

  /** The edge toward a fully walled neighbour is closed. */
  lemma EdgeToWalledCellClosed(g: Grid, width: int, height: int, c: Cell, d: Dir)
    requires IsRect(g, width, height) && Mirrored(g, width, height)
    requires InGrid(c, width, height) && InGrid(Step(c, d), width, height)
    requires At(g, Step(c, d)) == ALL_WALLS
    ensures EdgeOf(c, d) !in OpenEdges(g, width, height)
  {
    var n := Step(c, d);
    var e0 := EdgeOf(c, d);
    InOpenEdges(g, width, height, e0);
    AllWallsClosed(Opp(d));
    assert HasWall(At(g, n), Opp(d));
    assert HasWall(At(g, c), d);
    StepBack(c, d);
  }

  /** Carving toward an unvisited (fully walled) cell opens exactly one new edge. */
  lemma CarveOpensOneEdge(g: Grid, g2: Grid, width: int, height: int, c: Cell, d: Dir)
    requires IsRect(g, width, height) && IsRect(g2, width, height) && Mirrored(g, width, height)
    requires InGrid(c, width, height) && InGrid(Step(c, d), width, height)
    requires At(g, Step(c, d)) == ALL_WALLS
    requires CarvedGrid(g, g2, width, height, c, d)
    ensures OpenEdges(g2, width, height) == OpenEdges(g, width, height) + {EdgeOf(c, d)}
    ensures |OpenEdges(g2, width, height)| == |OpenEdges(g, width, height)| + 1
  {
    EdgesAfterCarve(g, g2, width, height, c, d);
    EdgeToWalledCellClosed(g, width, height, c, d);
  }

  /** The fresh grid has mirrored walls, closed outer walls and no open edge. */
  lemma AllWallsFacts(width: int, height: int)
    ensures Mirrored(AllWalls(width, height), width, height)
    ensures OuterWallsClosed(AllWalls(width, height), width, height)
    ensures OpenEdges(AllWalls(width, height), width, height) == {}
  {
    var g := AllWalls(width, height);
    forall c, d | InGrid(c, width, height) && InGrid(Step(c, d), width, height)
      ensures HasWall(At(g, c), d) <==> HasWall(At(g, Step(c, d)), Opp(d))
    {
      AllWallsClosed(d);
      AllWallsClosed(Opp(d));
    }
    forall c, d | InGrid(c, width, height) && !InGrid(Step(c, d), width, height)
      ensures HasWall(At(g, c), d)
    {
      AllWallsClosed(d);
    }
    forall e | e in OpenEdges(g, width, height) ensures false {
      InOpenEdges(g, width, height, e);
      AllWallsClosed(EdgeDir(e.2));
    }
  }

  /** `b` is the neighbour of `a` toward `d`, and the wall between them is open on both sides. */
  ghost predicate Linked(g: Grid, width: int, height: int, a: Cell, d: Dir, b: Cell)
    requires IsRect(g, width, height)
  {
    b == Step(a, d) && InGrid(a, width, height) && InGrid(b, width, height)
    && !HasWall(At(g, a), d) && !HasWall(At(g, b), Opp(d))
  }

  /*
   * The loop invariant of `Generate`, in five parts. `start` is (0,0); `wh` says the grid is not empty.
   */

  /** Walls: the grid keeps its shape, only loses walls, stays mirrored and closed outside. */
  ghost predicate WallsInv(width: int, height: int, g0: Grid, g: Grid) {
    IsRect(g, width, height) && FewerWalls(g, g0)
    && Mirrored(g, width, height) && OuterWallsClosed(g, width, height)
  }

  /** Stack: distinct visited cells, each consecutive pair joined by an open wall (`dirs[i - 1]`). */
  ghost predicate StackInv(width: int, height: int, g: Grid, visited: set<Cell>, stack: seq<Cell>, dirs: seq<Dir>)
    requires IsRect(g, width, height)
  {
    && (forall i :: 0 <= i < |stack| ==> stack[i] in visited)
    && (forall i, j :: 0 <= i < j < |stack| ==> stack[i] != stack[j])
    && (|stack| > 0 ==> |dirs| == |stack| - 1)
    && (forall i :: 0 < i < |stack| ==> Linked(g, width, height, stack[i - 1], dirs[i - 1], stack[i]))
  }

  /** Visited: the start and grid cells only; unvisited cells untouched; cells off the stack are finished. */
  ghost predicate VisitInv(width: int, height: int, g0: Grid, g: Grid, visited: set<Cell>, stack: seq<Cell>)
    requires IsRect(g, width, height)
  {
    && (0, 0) in visited
    && (width > 0 && height > 0 ==> visited <= AllCells(width, height))
    && (!(width > 0 && height > 0) ==> visited == {(0, 0)} && g == g0)
    && (forall c :: InGrid(c, width, height) && c !in visited ==> At(g, c) == ALL_WALLS)
    && (forall c, d :: c in visited && c !in stack && InGrid(Step(c, d), width, height) ==> Step(c, d) in visited)
  }

  /** Routes: every visited cell is reached from (0,0) by the open walk `route[c]`. */
  ghost predicate RouteInv(width: int, height: int, g: Grid, visited: set<Cell>, route: map<Cell, string>) {
    visited == route.Keys
    && forall c :: c in visited ==> OpenWalk(g, width, height, (0, 0), route[c]) && EndOf((0, 0), route[c]) == c
  }

  /** Counts: one carve and one open edge per visited cell after the first; two loop turns per cell. */
  ghost predicate CountInv(width: int, height: int, g: Grid, visited: set<Cell>, stack: seq<Cell>, draws: nat, iterations: nat)
    requires IsRect(g, width, height)
  {
    && (width > 0 && height > 0 ==> |OpenEdges(g, width, height)| == |visited| - 1)
    && draws == |visited| - 1
    && iterations == 2 * |visited| - 1 - |stack|
  }

  /** A push: carve from the top of the stack toward an unvisited neighbour. */
  lemma PushWalls(width: int, height: int, g0: Grid, g: Grid, g2: Grid, c: Cell, d: Dir)
    requires WallsInv(width, height, g0, g)
    requires InGrid(c, width, height) && InGrid(Step(c, d), width, height)
    requires g2 == Carve(g, c, d)
    ensures WallsInv(width, height, g0, g2)
    ensures CarvedGrid(g, g2, width, height, c, d) && FewerWalls(g2, g)
  {
    CarveBits(g, width, height, c, d);
    MirroredAfterCarve(g, g2, width, height, c, d);
    OuterWallsAfterCarve(g, g2, width, height, c, d);
    FewerWallsAfterCarve(g, g2, width, height, c, d);
    FewerWallsTrans(g2, g, g0);
  }

  lemma PushStack(width: int, height: int, g: Grid, g2: Grid, visited: set<Cell>, stack: seq<Cell>, dirs: seq<Dir>, d: Dir)
    requires IsRect(g, width, height) && IsRect(g2, width, height)
    requires StackInv(width, height, g, visited, stack, dirs)
    requires |stack| > 0 && InGrid(stack[|stack| - 1], width, height)
    requires InGrid(Step(stack[|stack| - 1], d), width, height) && Step(stack[|stack| - 1], d) !in visited
    requires CarvedGrid(g, g2, width, height, stack[|stack| - 1], d)
    ensures var n := Step(stack[|stack| - 1], d);
      StackInv(width, height, g2, visited + {n}, stack + [n], dirs + [d])
  {
    var c := stack[|stack| - 1];
    var n := Step(c, d);
    var stack2, dirs2 := stack + [n], dirs + [d];
    forall i | 0 < i < |stack2|
      ensures Linked(g2, width, height, stack2[i - 1], dirs2[i - 1], stack2[i])
    {
      if i < |stack| {
        assert Linked(g, width, height, stack[i - 1], dirs[i - 1], stack[i]);
      } else {
        StepBack(c, d);
      }
    }
  }

  lemma PushVisit(width: int, height: int, g0: Grid, g: Grid, g2: Grid, visited: set<Cell>, stack: seq<Cell>, d: Dir)
    requires IsRect(g, width, height) && IsRect(g2, width, height)
    requires VisitInv(width, height, g0, g, visited, stack)
    requires |stack| > 0 && stack[|stack| - 1] in visited && InGrid(stack[|stack| - 1], width, height)
    requires InGrid(Step(stack[|stack| - 1], d), width, height) && Step(stack[|stack| - 1], d) !in visited
    requires CarvedGrid(g, g2, width, height, stack[|stack| - 1], d)
    ensures var n := Step(stack[|stack| - 1], d);
      VisitInv(width, height, g0, g2, visited + {n}, stack + [n])
  {
    var c := stack[|stack| - 1];
    var n := Step(c, d);
    forall a | InGrid(a, width, height) && a !in visited + {n}
      ensures At(g2, a) == ALL_WALLS
    {
      forall d' ensures HasWall(At(g2, a), d') <==> HasWall(At(g, a), d') {
      }
      MaskExtensional(At(g2, a), At(g, a));
    }
  }

  lemma PushRoute(width: int, height: int, g: Grid, g2: Grid, visited: set<Cell>, route: map<Cell, string>, c: Cell, d: Dir)
    requires IsRect(g, width, height) && IsRect(g2, width, height)
    requires RouteInv(width, height, g, visited, route)
    requires c in visited && FewerWalls(g2, g)
    requires Open(g2, width, height, c, d)
    ensures RouteInv(width, height, g2, visited + {Step(c, d)}, route[Step(c, d) := route[c] + [Letter(d)]])
  {
    forall a | a in visited
      ensures OpenWalk(g2, width, height, (0, 0), route[a])
    {
      OpenWalkMonotone(g, g2, width, height, (0, 0), route[a]);
    }
    OpenWalkSnoc(g2, width, height, (0, 0), route[c], d);
  }

  /** A pop: the top of the stack has no unvisited neighbour left. */
  lemma PopKeeps(width: int, height: int, g0: Grid, g: Grid, visited: set<Cell>, stack: seq<Cell>, dirs: seq<Dir>)
    requires IsRect(g, width, height)
    requires StackInv(width, height, g, visited, stack, dirs) && VisitInv(width, height, g0, g, visited, stack)
    requires |stack| > 0
    requires Unvisited(stack[|stack| - 1], width, height, visited, Order) == []
    ensures StackInv(width, height, g, visited, stack[..|stack| - 1], if |stack| > 1 then dirs[..|dirs| - 1] else dirs)
    ensures VisitInv(width, height, g0, g, visited, stack[..|stack| - 1])
  {
    var c := stack[|stack| - 1];
    var s2 := stack[..|stack| - 1];
    assert c !in s2;
    forall a, d | a in visited && a !in s2 && InGrid(Step(a, d), width, height)
      ensures Step(a, d) in visited
    {
      if a == c {
        assert d in Order;
      } else {
        assert a !in stack;
      }
    }
  }

  /** When the stack is empty every grid cell has been visited and reached, with w*h-1 open edges. */
  lemma Finished(width: int, height: int, g0: Grid, g: Grid, visited: set<Cell>, route: map<Cell, string>,
                 draws: nat, iterations: nat)
    requires width > 0 && height > 0
    requires WallsInv(width, height, g0, g)
    requires VisitInv(width, height, g0, g, visited, [])
    requires RouteInv(width, height, g, visited, route)
    requires CountInv(width, height, g, visited, [], draws, iterations)
    ensures draws == width * height - 1 && iterations == 2 * (width * height) - 1
    ensures |OpenEdges(g, width, height)| == width * height - 1
    ensures forall c :: c in AllCells(width, height) ==> Reachable(g, width, height, (0, 0), c)
  {
    ClosedUnderNeighboursIsAll(visited, width, height);
    assert visited == AllCells(width, height);
    AllCellsCard(width, height);
    assert |visited| == width * height;
    forall c | c in AllCells(width, height)
      ensures Reachable(g, width, height, (0, 0), c)
    {
      assert OpenWalk(g, width, height, (0, 0), route[c]) && EndOf((0, 0), route[c]) == c;
    }
  }

  /** All the loop invariants of the backtracker at once. */
  ghost predicate GenInv(width: int, height: int, g0: Grid, g: Grid, visited: set<Cell>, stack: seq<Cell>,
                         dirs: seq<Dir>, route: map<Cell, string>, draws: nat, iterations: nat)
  {
    && WallsInv(width, height, g0, g)
    && StackInv(width, height, g, visited, stack, dirs)
    && VisitInv(width, height, g0, g, visited, stack)
    && RouteInv(width, height, g, visited, route)
    && CountInv(width, height, g, visited, stack, draws, iterations)
  }

  /** A push keeps every invariant and visits one more cell of the grid. */
  lemma Pushed(width: int, height: int, g0: Grid, g: Grid, g2: Grid, visited: set<Cell>, stack: seq<Cell>,
               dirs: seq<Dir>, route: map<Cell, string>, draws: nat, iterations: nat, d: Dir)
    requires GenInv(width, height, g0, g, visited, stack, dirs, route, draws, iterations)
    requires |stack| > 0 && d in Unvisited(stack[|stack| - 1], width, height, visited, Order)
    requires Holds(g, stack[|stack| - 1]) && Holds(g, Step(stack[|stack| - 1], d))
    requires g2 == Carve(g, stack[|stack| - 1], d)
    ensures var c := stack[|stack| - 1];
      var n := Step(c, d);
      && GenInv(width, height, g0, g2, visited + {n}, stack + [n], dirs + [d], route[n := route[c] + [Letter(d)]],
                draws + 1, iterations + 1)
      && n in AllCells(width, height) && n !in visited
  {
    var c := stack[|stack| - 1];
    var n := Step(c, d);
    assert c in visited;
    PushWalls(width, height, g0, g, g2, c, d);
    PushStack(width, height, g, g2, visited, stack, dirs, d);
    PushVisit(width, height, g0, g, g2, visited, stack, d);
    PushRoute(width, height, g, g2, visited, route, c, d);
    CarveOpensOneEdge(g, g2, width, height, c, d);
  }

  /** A pop keeps every invariant and shortens the stack. */
  lemma Popped(width: int, height: int, g0: Grid, g: Grid, visited: set<Cell>, stack: seq<Cell>,
               dirs: seq<Dir>, route: map<Cell, string>, draws: nat, iterations: nat)
    requires GenInv(width, height, g0, g, visited, stack, dirs, route, draws, iterations)
    requires |stack| > 0 && Unvisited(stack[|stack| - 1], width, height, visited, Order) == []
    ensures GenInv(width, height, g0, g, visited, stack[..|stack| - 1], if |stack| > 1 then dirs[..|dirs| - 1] else dirs,
                   route, draws, iterations + 1)
  {
    PopKeeps(width, height, g0, g, visited, stack, dirs);
  }

  class MazeGenerator {
    const width: int
    const height: int
    /** Stored as the source stores it; `Generate` takes the random choices as a parameter instead. */
    const seed: Option<int>
    var grid: Grid

    constructor (width: int, height: int, seed: Option<int>)
      ensures this.width == width && this.height == height && this.seed == seed
      ensures grid == AllWalls(width, height)
    {
      this.width := width;
      this.height := height;
      this.seed := seed;
      grid := AllWalls(width, height);
    }

    /**
     * One turn of the backtracker's loop: carve from the top of the stack toward the
     * unvisited neighbour `pick(draws)` selects and push it, or pop at a dead end.
     */
    method Advance(pick: nat -> nat, ghost g0: Grid, visited: set<Cell>, stack: seq<Cell>, ghost dirs: seq<Dir>,
                   ghost route: map<Cell, string>, draws: nat, ghost iterations: nat)
      returns (visited': set<Cell>, stack': seq<Cell>, ghost dirs': seq<Dir>, ghost route': map<Cell, string>,
               draws': nat, ghost iterations': nat)
      requires |stack| > 0
      requires GenInv(width, height, g0, grid, visited, stack, dirs, route, draws, iterations)
      modifies this
      ensures GenInv(width, height, g0, grid, visited', stack', dirs', route', draws', iterations')
      ensures var cur := stack[|stack| - 1];
        var unvisited := Unvisited(cur, width, height, visited, Order);
        if |unvisited| > 0 then
          var d := unvisited[pick(draws) % |unvisited|];
          && Carves(old(grid), grid, cur, d)
          && visited' == visited + {Step(cur, d)} && stack' == stack + [Step(cur, d)] && draws' == draws + 1
        else
          grid == old(grid) && visited' == visited && stack' == stack[..|stack| - 1] && draws' == draws
      ensures AllCells(width, height) - visited' < AllCells(width, height) - visited
        || (visited' == visited && |stack'| < |stack|)
    {
      var cur := stack[|stack| - 1];
      var unvisited := CollectUnvisited(cur, width, height, visited);
      if |unvisited| > 0 {
        var d := unvisited[pick(draws) % |unvisited|];
        var next := Step(cur, d);
        assert d in unvisited;
        assert InGrid(cur, width, height) && InGrid(next, width, height);
        ghost var before := grid;
        grid := grid[cur.1 := grid[cur.1][cur.0 := Clear(grid[cur.1][cur.0], d)]];
        grid := grid[next.1 := grid[next.1][next.0 := Clear(grid[next.1][next.0], Opp(d))]];
        assert grid == Carve(before, cur, d);
        assert Carves(before, grid, cur, d);
        Pushed(width, height, g0, before, grid, visited, stack, dirs, route, draws, iterations, d);
        visited' := visited + {next};
        stack' := stack + [next];
        dirs' := dirs + [d];
        route' := route[next := route[cur] + [Letter(d)]];
        draws' := draws + 1;
      } else {
        Popped(width, height, g0, grid, visited, stack, dirs, route, draws, iterations);
        visited', route', draws' := visited, route, draws;
        dirs' := if |stack| > 1 then dirs[..|dirs| - 1] else dirs;
        stack' := stack[..|stack| - 1];
      }
      iterations' := iterations + 1;
    }

    /**
     * The backtracker, started at (0,0). The k-th call of `random.choice(unvisited)`
     * picks `unvisited[pick(k) % |unvisited|]`, so every sequence of random choices
     * is some `pick`. `carves` counts the carve steps and `iterations` the loop turns.
     */
    method Generate(pick: nat -> nat) returns (result: Grid, ghost carves: nat, ghost iterations: nat)
      requires grid == AllWalls(width, height)
      modifies this
      ensures result == grid
      ensures IsRect(grid, width, height) && FewerWalls(grid, old(grid))
      ensures Mirrored(grid, width, height) && OuterWallsClosed(grid, width, height)
      ensures width > 0 && height > 0 ==>
        && carves == width * height - 1
        && iterations == 2 * (width * height) - 1
        && |OpenEdges(grid, width, height)| == width * height - 1
        && forall c :: c in AllCells(width, height) ==> Reachable(grid, width, height, (0, 0), c)
      ensures !(width > 0 && height > 0) ==> grid == old(grid) && carves == 0 && iterations == 1
    {
      ghost var g0 := grid;
      ghost var wh := width > 0 && height > 0;
      AllWallsFacts(width, height);
      var visited: set<Cell> := {};
      var stack: seq<Cell> := [];
      var start: Cell := (0, 0);
      visited := visited + {start};
      stack := stack + [start];
      var draws: nat := 0;
      ghost var dirs: seq<Dir> := [];
      ghost var route: map<Cell, string> := map[start := ""];
      iterations := 0;
      while |stack| > 0
        invariant GenInv(width, height, g0, grid, visited, stack, dirs, route, draws, iterations)
        decreases AllCells(width, height) - visited, |stack|
      {
        visited, stack, dirs, route, draws, iterations := Advance(pick, g0, visited, stack, dirs, route, draws, iterations);
      }
      result := grid;
      carves := draws;
      if wh {
        Finished(width, height, g0, grid, visited, route, draws, iterations);
      }
    }
  }
}

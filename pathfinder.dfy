/**
 * The second solver (`src/solver/pathfinder.py`): a breadth-first search over
 * `MazeData.get_walls` that steps where a wall bit is SET, with no bounds check.
 */
module Pathfinding {
  import opened Walls
  import opened Grids
  import opened Queues
  import opened Maze
  import opened Wrappers
  import HexWriter

  /** The move this solver takes: the wall bit toward `d` is set on `c`. */
  predicate SetMove(m: MazeData, c: Cell, d: Dir)
    requires m.Covers()
  {
    HasWall(m.GetWalls(c.0, c.1), d)
  }

  /** Every letter of `p`, replayed from `c`, is a `SetMove`. */
  predicate SetWalk(m: MazeData, c: Cell, p: string)
    requires m.Covers()
    decreases |p|
  {
    if p == [] then true
    else
      var q := p[..|p| - 1];
      SetWalk(m, c, q) && IsLetter(p[|p| - 1]) && SetMove(m, EndOf(c, q), DirOf(p[|p| - 1]).value)
  }

  ghost predicate SetReachable(m: MazeData, c: Cell)
    requires m.Covers()
  {
    exists p {:trigger SetWalk(m, m.entry, p)} :: SetWalk(m, m.entry, p) && EndOf(m.entry, p) == c
  }

  lemma SetWalkSnoc(m: MazeData, c: Cell, p: string, d: Dir)
    requires m.Covers() && SetWalk(m, c, p) && SetMove(m, EndOf(c, p), d)
    ensures SetWalk(m, c, p + [Letter(d)]) && EndOf(c, p + [Letter(d)]) == Step(EndOf(c, p), d)
  {
    assert (p + [Letter(d)])[..|p|] == p;
  }

  /** A set holding `c` and closed under set-bit moves holds the end of every set-bit walk from `c`. */
  lemma {:induction false} SetWalkClosed(m: MazeData, c: Cell, cells: set<Cell>, p: string)
    requires m.Covers() && c in cells
    requires forall a, d {:trigger SetMove(m, a, d)} :: a in cells && SetMove(m, a, d) ==> Step(a, d) in cells
    requires SetWalk(m, c, p)
    ensures EndOf(c, p) in cells
    decreases |p|
  {
    if p != [] {
      SetWalkClosed(m, c, cells, p[..|p| - 1]);
    }
  }

  /*
   * Off the grid every bit is set, so a walk that leaves the grid can go on for ever.
   */

  /** `c` lies beyond the grid on the side `d` points to, so moving toward `d` stays off the grid. */
  predicate Beyond(c: Cell, d: Dir, width: int, height: int) {
    match d
    case N => c.1 < 0
    case S => c.1 >= height
    case W => c.0 < 0
    case E => c.0 >= width
  }

  /** `c` moved `i` times toward `d`. */
  function Shift(c: Cell, d: Dir, i: nat): Cell {
    if i == 0 then c else Step(Shift(c, d, i - 1), d)
  }

  /** How far along `d` a cell lies; each step toward `d` adds one. */
  function Progress(c: Cell, d: Dir): int {
    match d
    case N => -c.1
    case S => c.1
    case W => -c.0
    case E => c.0
  }

  lemma {:induction false} ShiftProgress(c: Cell, d: Dir, i: nat)
    ensures Progress(Shift(c, d, i), d) == Progress(c, d) + i
  {
    if i > 0 {
      ShiftProgress(c, d, i - 1);
    }
  }

  lemma {:induction false} ShiftBeyond(c: Cell, d: Dir, i: nat, width: int, height: int)
    requires Beyond(c, d, width, height)
    ensures Beyond(Shift(c, d, i), d, width, height) && !InGrid(Shift(c, d, i), width, height)
  {
    if i > 0 {
      ShiftBeyond(c, d, i - 1, width, height);
    }
  }

  function Ray(c: Cell, d: Dir, n: nat): set<Cell> {
    set i | 0 <= i <= n :: Shift(c, d, i)
  }

  /** The first `n + 1` cells of a ray are distinct. */
  lemma {:induction false} RayCard(c: Cell, d: Dir, n: nat)
    ensures |Ray(c, d, n)| == n + 1
  {
    if n == 0 {
      assert Ray(c, d, 0) == {c};
    } else {
      RayCard(c, d, n - 1);
      RaySnoc(c, d, n);
      RayFresh(c, d, n);
    }
  }

  lemma RaySnoc(c: Cell, d: Dir, n: nat)
    requires n > 0
    ensures Ray(c, d, n) == Ray(c, d, n - 1) + {Shift(c, d, n)}
  {
    forall x | x in Ray(c, d, n)
      ensures x in Ray(c, d, n - 1) + {Shift(c, d, n)}
    {
      var i :| 0 <= i <= n && x == Shift(c, d, i);
      if i < n {
        assert x in Ray(c, d, n - 1);
      }
    }
    assert Shift(c, d, n) in Ray(c, d, n);
  }

  /** The `n`-th cell of a ray is none of the earlier ones: the distance along `d` grows by one per step. */
  lemma RayFresh(c: Cell, d: Dir, n: nat)
    requires n > 0
    ensures Shift(c, d, n) !in Ray(c, d, n - 1)
  {
    ShiftProgress(c, d, n);
    forall i | 0 <= i <= n - 1
      ensures Shift(c, d, i) != Shift(c, d, n)
    {
      ShiftProgress(c, d, i);
    }
  }

  function Repeat(ch: char, n: nat): string {
    if n == 0 then [] else Repeat(ch, n - 1) + [ch]
  }

  /** From a cell beyond the grid, walking straight on is a set-bit walk. */
  lemma {:induction false} WalkBeyond(m: MazeData, c: Cell, p: string, d: Dir, i: nat)
    requires m.Covers() && SetWalk(m, c, p) && Beyond(EndOf(c, p), d, m.width, m.height)
    ensures SetWalk(m, c, p + Repeat(Letter(d), i)) && EndOf(c, p + Repeat(Letter(d), i)) == Shift(EndOf(c, p), d, i)
  {
    if i > 0 {
      WalkBeyond(m, c, p, d, i - 1);
      var q := p + Repeat(Letter(d), i - 1);
      ShiftBeyond(EndOf(c, p), d, i - 1, m.width, m.height);
      OffGridAllWalls(m, EndOf(c, q), d);
      SetWalkSnoc(m, c, q, d);
      assert q + [Letter(d)] == p + Repeat(Letter(d), i);
    } else {
      assert p + Repeat(Letter(d), 0) == p;
    }
  }

  lemma OffGridIsBeyond(c: Cell, width: int, height: int) returns (d: Dir)
    requires !InGrid(c, width, height)
    ensures Beyond(c, d, width, height)
  {
    if c.1 < 0 {
      d := N;
    } else if c.1 >= height {
      d := S;
    } else if c.0 < 0 {
      d := W;
    } else {
      d := E;
    }
  }

  /**
   * No finite set that is closed under set-bit moves holds a cell off the grid:
   * from there the search could go on for ever.
   */
  lemma ClosedSetStaysInGrid(m: MazeData, cells: set<Cell>, c: Cell)
    requires m.Covers() && c in cells
    requires forall a, d {:trigger SetMove(m, a, d)} :: a in cells && SetMove(m, a, d) ==> Step(a, d) in cells
    ensures forall p {:trigger SetWalk(m, c, p)} :: SetWalk(m, c, p) ==> InGrid(EndOf(c, p), m.width, m.height)
  {
    forall p | SetWalk(m, c, p)
      ensures InGrid(EndOf(c, p), m.width, m.height)
    {
      var e := EndOf(c, p);
      if !InGrid(e, m.width, m.height) {
        var d := OffGridIsBeyond(e, m.width, m.height);
        var n := |cells|;
        forall i | 0 <= i <= n
          ensures Shift(e, d, i) in cells
        {
          WalkBeyond(m, c, p, d, i);
          SetWalkClosed(m, c, cells, p + Repeat(Letter(d), i));
        }
        RayCard(e, d, n);
        SubsetCard(Ray(e, d, n), cells);
        assert false;
      }
    }
  }

  /** In a grid whose outer walls are closed, the set bit of a border wall leads off the grid. */
  lemma LeavesAtBorder(m: MazeData, c: Cell, d: Dir)
    requires m.Covers() && InGrid(c, m.width, m.height) && !InGrid(Step(c, d), m.width, m.height)
    requires HasWall(At(m.gridResult, c), d)
    ensures SetWalk(m, c, [Letter(d)]) && !InGrid(EndOf(c, [Letter(d)]), m.width, m.height)
  {
    SetWalkSnoc(m, c, [], d);
  }

  /** The result of `solve`, or a search cut short after `fuel` dequeues. */
  datatype Outcome = Returned(path: string) | OutOfFuel

  /** Each queued entry carries a set-bit walk from the entry to its cell, and the cell is visited. */
  ghost predicate Recorded(m: MazeData, queue: seq<Entry>, visited: set<Cell>)
    requires m.Covers()
  {
    forall i {:trigger queue[i]} :: 0 <= i < |queue| ==>
      SetWalk(m, m.entry, queue[i].1) && EndOf(m.entry, queue[i].1) == queue[i].0 && queue[i].0 in visited
  }

  lemma RecordedSnoc(m: MazeData, queue: seq<Entry>, visited: set<Cell>, e: Entry)
    requires m.Covers() && Recorded(m, queue, visited)
    requires SetWalk(m, m.entry, e.1) && EndOf(m.entry, e.1) == e.0
    ensures Recorded(m, queue + [e], visited + {e.0})
  {
    var q := queue + [e];
    forall i | 0 <= i < |q|
      ensures SetWalk(m, m.entry, q[i].1) && EndOf(m.entry, q[i].1) == q[i].0 && q[i].0 in visited + {e.0}
    {
      if i < |queue| {
        assert q[i] == queue[i];
      }
    }
  }

  lemma RecordedTail(m: MazeData, e: Entry, queue: seq<Entry>, visited: set<Cell>)
    requires m.Covers() && Recorded(m, [e] + queue, visited)
    ensures Recorded(m, queue, visited)
    ensures SetWalk(m, m.entry, e.1) && EndOf(m.entry, e.1) == e.0 && e.0 in visited
  {
    var q := [e] + queue;
    assert q[0] == e;
    forall i | 0 <= i < |queue|
      ensures SetWalk(m, m.entry, queue[i].1) && EndOf(m.entry, queue[i].1) == queue[i].0 && queue[i].0 in visited
    {
      assert queue[i] == q[i + 1];
    }
  }

  /** Queued path lengths never decrease and span at most one level. */
  ghost predicate Levelled(queue: seq<Entry>) {
    forall i, j :: 0 <= i <= j < |queue| ==> |queue[i].1| <= |queue[j].1| <= |queue[i].1| + 1
  }

  /** No set-bit walk from the entry reaches a queued cell in fewer steps than its queued path. */
  ghost predicate Shortest(m: MazeData, queue: seq<Entry>)
    requires m.Covers()
  {
    forall i, p {:trigger queue[i], SetWalk(m, m.entry, p)} ::
      0 <= i < |queue| && SetWalk(m, m.entry, p) && EndOf(m.entry, p) == queue[i].0 ==> |queue[i].1| <= |p|
  }

  /** Every set-bit walk from the entry of at most `n` steps ends in `visited`. */
  ghost predicate ReachedWithin(m: MazeData, n: nat, visited: set<Cell>)
    requires m.Covers()
  {
    forall p {:trigger SetWalk(m, m.entry, p)} :: SetWalk(m, m.entry, p) && |p| <= n ==> EndOf(m.entry, p) in visited
  }

  /** Every walk no longer than the head's path ends in a visited cell. */
  ghost predicate Covered(m: MazeData, queue: seq<Entry>, visited: set<Cell>)
    requires m.Covers()
  {
    |queue| > 0 ==> ReachedWithin(m, |queue[0].1|, visited)
  }

  /** The rest of the queue while a cell dequeued with a path of `n` letters is expanded. */
  ghost predicate Pending(m: MazeData, queue: seq<Entry>, visited: set<Cell>, n: nat)
    requires m.Covers()
  {
    && Recorded(m, queue, visited) && Levelled(queue) && Shortest(m, queue)
    && forall i {:trigger queue[i]} :: 0 <= i < |queue| ==> n <= |queue[i].1| <= n + 1
  }

  /** The loop invariant of `solve`. `done` holds the dequeued (fully expanded) cells. */
  ghost predicate SearchInv(m: MazeData, queue: seq<Entry>, visited: set<Cell>, done: set<Cell>)
    requires m.Covers()
  {
    && m.entry in visited && m.exit !in visited
    && Recorded(m, queue, visited) && Levelled(queue) && Shortest(m, queue) && Covered(m, queue, visited)
    && visited <= done + Cells(queue) && done <= visited
    && (forall c, d {:trigger SetMove(m, c, d)} :: c in done && SetMove(m, c, d) ==> Step(c, d) in visited)
  }

  lemma SearchInit(m: MazeData)
    requires m.Covers() && m.entry != m.exit
    ensures SearchInv(m, [(m.entry, "")], {m.entry}, {})
  {
    forall p {:trigger SetWalk(m, m.entry, p)} | SetWalk(m, m.entry, p) && |p| <= 0
      ensures EndOf(m.entry, p) in {m.entry}
    {
      assert p == [];
    }
  }

  /** Dequeuing the head of a levelled queue of shortest paths leaves the pending rest a level apart. */
  lemma PendingTail(m: MazeData, e: Entry, queue: seq<Entry>, visited: set<Cell>)
    requires m.Covers() && Recorded(m, [e] + queue, visited) && Levelled([e] + queue) && Shortest(m, [e] + queue)
    ensures Pending(m, queue, visited, |e.1|)
    ensures SetWalk(m, m.entry, e.1) && EndOf(m.entry, e.1) == e.0 && e.0 in visited
  {
    var q := [e] + queue;
    assert q[0] == e;
    RecordedTail(m, e, queue, visited);
    forall i, j | 0 <= i <= j < |queue|
      ensures |queue[i].1| <= |queue[j].1| <= |queue[i].1| + 1
    {
      assert queue[i] == q[i + 1] && queue[j] == q[j + 1];
    }
    forall i | 0 <= i < |queue|
      ensures |e.1| <= |queue[i].1| <= |e.1| + 1
    {
      assert queue[i] == q[i + 1];
    }
    forall i, p | 0 <= i < |queue| && SetWalk(m, m.entry, p) && EndOf(m.entry, p) == queue[i].0
      ensures |queue[i].1| <= |p|
    {
      assert queue[i] == q[i + 1];
    }
  }

  /**
   * Queueing a fresh cell one step beyond the expanded level keeps the queue
   * levelled and shortest: a shorter walk to it would have ended in a visited cell.
   */
  lemma PendingSnoc(m: MazeData, queue: seq<Entry>, visited: set<Cell>, n: nat, e: Entry, visited0: set<Cell>)
    requires m.Covers() && Pending(m, queue, visited, n)
    requires SetWalk(m, m.entry, e.1) && EndOf(m.entry, e.1) == e.0 && |e.1| == n + 1
    requires ReachedWithin(m, n, visited0) && visited0 <= visited && e.0 !in visited
    ensures Pending(m, queue + [e], visited + {e.0}, n)
  {
    RecordedSnoc(m, queue, visited, e);
    var q := queue + [e];
    forall i, j | 0 <= i <= j < |q|
      ensures |q[i].1| <= |q[j].1| <= |q[i].1| + 1
    {
      if j < |queue| {
        assert q[i] == queue[i] && q[j] == queue[j];
      } else if i < |queue| {
        assert q[i] == queue[i];
      }
    }
    forall i | 0 <= i < |q|
      ensures n <= |q[i].1| <= n + 1
    {
      if i < |queue| {
        assert q[i] == queue[i];
      }
    }
    forall i, p | 0 <= i < |q| && SetWalk(m, m.entry, p) && EndOf(m.entry, p) == q[i].0
      ensures |q[i].1| <= |p|
    {
      if i < |queue| {
        assert q[i] == queue[i];
      } else {
        assert EndOf(m.entry, p) !in visited0;
      }
    }
  }

  /** The moves of `ds`, in order, that `solve` takes out of `cur`: wall bit set and neighbour unseen. */
  function SetExpandable(m: MazeData, cur: Cell, visited: set<Cell>, ds: seq<Dir>): (r: seq<Dir>)
    requires m.Covers()
    ensures forall d {:trigger d in r} :: d in r <==> d in ds && SetMove(m, cur, d) && Step(cur, d) !in visited
  {
    if ds == [] then []
    else
      var prev := SetExpandable(m, cur, visited, ds[..|ds| - 1]);
      var d := ds[|ds| - 1];
      assert forall e :: e in ds <==> e in ds[..|ds| - 1] || e == d;
      if SetMove(m, cur, d) && Step(cur, d) !in visited then prev + [d] else prev
  }

  /** The entries `solve` generates out of `cur`, reached by `path`, in the order N, E, S, W. */
  function SetFound(m: MazeData, cur: Cell, path: string, visited: set<Cell>): seq<Entry>
    requires m.Covers()
  {
    HexWriter.Entries(cur, path, SetExpandable(m, cur, visited, Order))
  }

  /** The entries generated through the first `k` directions of N, E, S, W. */
  function SetFoundUpTo(m: MazeData, cur: Cell, path: string, visited: set<Cell>, k: nat): seq<Entry>
    requires m.Covers() && k <= |Order|
  {
    HexWriter.Entries(cur, path, SetExpandable(m, cur, visited, Order[..k]))
  }

  /** Direction `Order[k]` adds its neighbour, one letter further, exactly when its bit is set and the neighbour unseen. */
  lemma SetFoundStep(m: MazeData, cur: Cell, path: string, visited: set<Cell>, k: nat)
    requires m.Covers() && k < |Order|
    ensures var d, e := Order[k], SetFoundUpTo(m, cur, path, visited, k);
      && Step(cur, d) !in Cells(e)
      && SetFoundUpTo(m, cur, path, visited, k + 1)
         == (if SetMove(m, cur, d) && Step(cur, d) !in visited then e + [(Step(cur, d), path + [Letter(d)])] else e)
      && Cells(e + [(Step(cur, d), path + [Letter(d)])]) == Cells(e) + {Step(cur, d)}
  {
    var d := Order[k];
    var prev := SetExpandable(m, cur, visited, Order[..k]);
    assert Order[..k + 1][..k] == Order[..k];
    HexWriter.EntriesCells(cur, path, prev, Step(cur, d));
    HexWriter.EntriesSnoc(cur, path, prev, d);
    CellsAppend(HexWriter.Entries(cur, path, prev), [(Step(cur, d), path + [Letter(d)])]);
  }

  /** Every unseen neighbour behind a set bit is generated, with the path one letter longer. */
  lemma SetFoundHas(m: MazeData, cur: Cell, path: string, visited: set<Cell>, d: Dir)
    requires m.Covers() && SetMove(m, cur, d) && Step(cur, d) !in visited
    ensures (Step(cur, d), path + [Letter(d)]) in SetFound(m, cur, path, visited)
  {
    var r := SetExpandable(m, cur, visited, Order);
    assert d in Order by {
      assert d == Order[0] || d == Order[1] || d == Order[2] || d == Order[3];
    }
    assert d in r;
    var i :| 0 <= i < |r| && r[i] == d;
    assert HexWriter.Entries(cur, path, r)[i] == (Step(cur, d), path + [Letter(d)]);
  }

  /** `queue'` and `visited'` after the first `k` passes of the `for` loop, the exit not yet generated. */
  ghost predicate Generated(m: MazeData, cur: Cell, path: string, queue: seq<Entry>, visited: set<Cell>, k: nat,
                            queue': seq<Entry>, visited': set<Cell>)
    requires m.Covers() && k <= |Order|
  {
    var e := SetFoundUpTo(m, cur, path, visited, k);
    queue' == queue + e && visited' == visited + Cells(e) && m.exit !in Cells(e)
  }

  /** Every set-bit walk from the entry stays inside the grid: then the search meets at most `width * height` cells. */
  ghost predicate StaysInGrid(m: MazeData)
    requires m.Covers()
  {
    forall p {:trigger SetWalk(m, m.entry, p)} ::
      SetWalk(m, m.entry, p) ==> InGrid(EndOf(m.entry, p), m.width, m.height)
  }

  /**
   * What a pass of `solve`'s `for` loop adds: one queued entry per new visited cell,
   * each new cell inside the grid when every set-bit walk stays there.
   */
  ghost predicate Tally(m: MazeData, queue: seq<Entry>, visited: set<Cell>, queue': seq<Entry>, visited': set<Cell>)
    requires m.Covers()
  {
    && |visited'| + |queue| == |visited| + |queue'|
    && (StaysInGrid(m) && visited <= AllCells(m.width, m.height) ==> visited' <= AllCells(m.width, m.height))
  }

  lemma TallySnoc(m: MazeData, queue: seq<Entry>, visited: set<Cell>, queue': seq<Entry>, visited': set<Cell>,
                  e: Entry)
    requires m.Covers() && Tally(m, queue, visited, queue', visited')
    requires SetWalk(m, m.entry, e.1) && EndOf(m.entry, e.1) == e.0 && e.0 !in visited'
    ensures Tally(m, queue, visited, queue' + [e], visited' + {e.0})
  {
  }

  /** An unvisited exit is more than `n` steps away. */
  lemma ExitBeyond(m: MazeData, n: nat, visited: set<Cell>)
    requires m.Covers() && ReachedWithin(m, n, visited) && m.exit !in visited
    ensures forall p {:trigger SetWalk(m, m.entry, p)} :: SetWalk(m, m.entry, p) && EndOf(m.entry, p) == m.exit ==> n < |p|
  {
  }

  /**
   * After a cell of level `n` is expanded, every walk no longer than the new head's
   * path ends in a visited cell: a walk one step past level `n` leaves a cell that is
   * expanded, since no queued entry can be at it: its queued path would be longer
   * than that walk.
   */
  lemma {:induction false} CoverStep(m: MazeData, n: nat, visited0: set<Cell>, visited: set<Cell>, done: set<Cell>,
                                     queue: seq<Entry>)
    requires m.Covers() && ReachedWithin(m, n, visited0)
    requires visited0 <= done + Cells(queue) && visited0 <= visited
    requires forall c, d {:trigger SetMove(m, c, d)} :: c in done && SetMove(m, c, d) ==> Step(c, d) in visited
    requires Levelled(queue) && Shortest(m, queue)
    requires |queue| > 0 ==> n <= |queue[0].1| <= n + 1
    ensures Covered(m, queue, visited)
  {
    if |queue| > 0 {
      forall p {:trigger SetWalk(m, m.entry, p)} | SetWalk(m, m.entry, p) && |p| <= |queue[0].1|
        ensures EndOf(m.entry, p) in visited
      {
        if |p| > n {
          var q := p[..|p| - 1];
          var a := EndOf(m.entry, q);
          var d := DirOf(p[|p| - 1]).value;
          assert SetWalk(m, m.entry, q) && SetMove(m, a, d);
          assert a in visited0;
          forall i | 0 <= i < |queue|
            ensures queue[i].0 != a
          {
            assert |q| < |queue[0].1| <= |queue[i].1|;
          }
          CellsIndex(queue, a);
          assert a in done;
          assert EndOf(m.entry, p) == Step(a, d);
        }
      }
    }
  }

  class Pathfinder {
    const maze: MazeData

    constructor (maze: MazeData)
      ensures this.maze == maze
    {
      this.maze := maze;
    }

    /**
     * `solve`: breadth-first search from the entry, trying N, E, S, W and stepping
     * where the bit is set; the exit is recognised when it is generated as a
     * neighbour. The source loop need not terminate, so at most `fuel` cells are
     * dequeued.
     */
    method Solve(fuel: nat) returns (r: Outcome)
      requires maze.Covers()
      ensures maze.entry == maze.exit ==> r == Returned("")
      ensures r.Returned? && r.path != [] ==>
        SetWalk(maze, maze.entry, r.path) && EndOf(maze.entry, r.path) == maze.exit
      ensures r.Returned? && r.path != [] ==>
        forall p {:trigger SetWalk(maze, maze.entry, p)} ::
          SetWalk(maze, maze.entry, p) && EndOf(maze.entry, p) == maze.exit ==> |r.path| <= |p|
      ensures r.Returned? && r.path == [] && maze.entry != maze.exit ==>
        && !SetReachable(maze, maze.exit)
        && forall p {:trigger SetWalk(maze, maze.entry, p)} ::
             SetWalk(maze, maze.entry, p) ==> InGrid(EndOf(maze.entry, p), maze.width, maze.height)
      ensures StaysInGrid(maze) && fuel >= maze.width * maze.height ==> r.Returned?
    {
      var m := maze;
      if m.entry == m.exit {
        return Returned("");
      }
      var queue: seq<Entry> := [(m.entry, "")];
      var visited: set<Cell> := {m.entry};
      ghost var done: set<Cell> := {};
      SearchInit(m);
      assert SetWalk(m, m.entry, "") && EndOf(m.entry, "") == m.entry;
      var left: nat := fuel;
      while |queue| > 0
        invariant SearchInv(m, queue, visited, done)
        invariant left <= fuel && fuel - left + |queue| == |visited|
        invariant StaysInGrid(m) ==> visited <= AllCells(m.width, m.height)
        decreases left
      {
        if left == 0 {
          if StaysInGrid(m) {
            assert InGrid(m.entry, m.width, m.height);
            SubsetCard(visited, AllCells(m.width, m.height));
            AllCellsCard(m.width, m.height);
          }
          return OutOfFuel;
        }
        left := left - 1;
        var cur, path := queue[0].0, queue[0].1;
        ghost var old_queue := queue;
        queue := queue[1..];
        assert old_queue == [(cur, path)] + queue;
        var hit;
        hit, queue, visited := Expand(m, cur, path, queue, visited, done);
        if hit.Some? {
          return Returned(hit.value);
        }
        done := done + {cur};
      }
      ExhaustedSearch(m, visited, done);
      return Returned("");
    }
  }

  /** The invariant of `solve`'s `for` loop after `k` passes over the dequeued `(cur, path)`. */
  ghost predicate ExpandInv(m: MazeData, cur: Cell, path: string, queue: seq<Entry>, visited: set<Cell>,
                            done: set<Cell>, k: nat, queue': seq<Entry>, visited': set<Cell>)
    requires m.Covers() && k <= |Order|
  {
    && m.entry in visited' && m.exit !in visited' && cur in visited' && done <= visited'
    && SetWalk(m, m.entry, path) && EndOf(m.entry, path) == cur
    && ReachedWithin(m, |path|, visited)
    && Pending(m, queue', visited', |path|) && visited <= visited'
    && visited' <= done + {cur} + Cells(queue')
    && (forall c, d {:trigger SetMove(m, c, d)} :: c in done && SetMove(m, c, d) ==> Step(c, d) in visited')
    && (forall j {:trigger Order[j]} :: 0 <= j < k && SetMove(m, cur, Order[j]) ==> Step(cur, Order[j]) in visited')
    && Tally(m, queue, visited, queue', visited')
    && Generated(m, cur, path, queue, visited, k, queue', visited')
  }

  /**
   * One pass of the `for` loop of `solve`, for direction `Order[k]`: behind a set
   * bit, an unvisited neighbour is either the exit, which ends the search with the
   * path one letter longer, or is marked visited and queued.
   */
  method TryMove(m: MazeData, cur: Cell, path: string, ghost queue: seq<Entry>, ghost visited: set<Cell>,
                 ghost done: set<Cell>, k: nat, walls: Mask, q: seq<Entry>, v: set<Cell>)
    returns (hit: Option<string>, q': seq<Entry>, v': set<Cell>)
    requires m.Covers() && k < |Order| && walls == m.GetWalls(cur.0, cur.1)
    requires ExpandInv(m, cur, path, queue, visited, done, k, q, v)
    ensures hit.Some? ==>
      && hit.value != [] && SetWalk(m, m.entry, hit.value) && EndOf(m.entry, hit.value) == m.exit
      && |hit.value| == |path| + 1 && (m.exit, hit.value) in SetFound(m, cur, path, visited)
    ensures hit.None? ==> ExpandInv(m, cur, path, queue, visited, done, k + 1, q', v')
  {
    var d := Order[k];
    var next := Step(cur, d);
    q', v' := q, v;
    hit := None;
    if HasWall(walls, d) && next !in v {
      var newPath := path + [Letter(d)];
      if next == m.exit {
        ExpandHit(m, cur, path, queue, visited, done, k, q, v);
        return Some(newPath), q, v;
      }
      ExpandPush(m, cur, path, queue, visited, done, k, q, v);
      v' := v + {next};
      q' := q + [(next, newPath)];
    } else {
      ExpandSkip(m, cur, path, queue, visited, done, k, q, v);
    }
  }

  lemma ExpandSkip(m: MazeData, cur: Cell, path: string, queue: seq<Entry>, visited: set<Cell>, done: set<Cell>,
                   k: nat, q: seq<Entry>, v: set<Cell>)
    requires m.Covers() && k < |Order| && ExpandInv(m, cur, path, queue, visited, done, k, q, v)
    requires !SetMove(m, cur, Order[k]) || Step(cur, Order[k]) in v
    ensures ExpandInv(m, cur, path, queue, visited, done, k + 1, q, v)
  {
    SetFoundStep(m, cur, path, visited, k);
  }

  lemma ExpandHit(m: MazeData, cur: Cell, path: string, queue: seq<Entry>, visited: set<Cell>, done: set<Cell>,
                  k: nat, q: seq<Entry>, v: set<Cell>)
    requires m.Covers() && k < |Order| && ExpandInv(m, cur, path, queue, visited, done, k, q, v)
    requires SetMove(m, cur, Order[k]) && Step(cur, Order[k]) !in v && Step(cur, Order[k]) == m.exit
    ensures var p := path + [Letter(Order[k])];
      && p != [] && SetWalk(m, m.entry, p) && EndOf(m.entry, p) == m.exit
      && |p| == |path| + 1 && (m.exit, p) in SetFound(m, cur, path, visited)
  {
    SetWalkSnoc(m, m.entry, path, Order[k]);
    SetFoundHas(m, cur, path, visited, Order[k]);
  }

  lemma ExpandPush(m: MazeData, cur: Cell, path: string, queue: seq<Entry>, visited: set<Cell>, done: set<Cell>,
                   k: nat, q: seq<Entry>, v: set<Cell>)
    requires m.Covers() && k < |Order| && ExpandInv(m, cur, path, queue, visited, done, k, q, v)
    requires SetMove(m, cur, Order[k]) && Step(cur, Order[k]) !in v && Step(cur, Order[k]) != m.exit
    ensures var e := (Step(cur, Order[k]), path + [Letter(Order[k])]);
      ExpandInv(m, cur, path, queue, visited, done, k + 1, q + [e], v + {e.0})
  {
    var d := Order[k];
    var e := (Step(cur, d), path + [Letter(d)]);
    SetWalkSnoc(m, m.entry, path, d);
    CellsAppend(q, [e]);
    PendingSnoc(m, q, v, |path|, e, visited);
    TallySnoc(m, queue, visited, q, v, e);
    GeneratedPush(m, cur, path, queue, visited, k, q, v);
    assert forall j {:trigger Order[j]} :: 0 <= j < k + 1 && SetMove(m, cur, Order[j]) ==>
      Step(cur, Order[j]) in v + {e.0};
  }

  lemma GeneratedPush(m: MazeData, cur: Cell, path: string, queue: seq<Entry>, visited: set<Cell>, k: nat,
                      q: seq<Entry>, v: set<Cell>)
    requires m.Covers() && k < |Order| && Generated(m, cur, path, queue, visited, k, q, v)
    requires SetMove(m, cur, Order[k]) && Step(cur, Order[k]) !in v && Step(cur, Order[k]) != m.exit
    ensures var e := (Step(cur, Order[k]), path + [Letter(Order[k])]);
      Generated(m, cur, path, queue, visited, k + 1, q + [e], v + {e.0})
  {
    var d := Order[k];
    var e := (Step(cur, d), path + [Letter(d)]);
    var f := SetFoundUpTo(m, cur, path, visited, k);
    SetFoundStep(m, cur, path, visited, k);
    assert SetFoundUpTo(m, cur, path, visited, k + 1) == f + [e];
    assert q + [e] == queue + (f + [e]);
  }

  /** Before the `for` loop: the invariant holds with nothing generated, and the exit is beyond `path`'s level. */
  lemma ExpandStart(m: MazeData, cur: Cell, path: string, queue: seq<Entry>, visited: set<Cell>, done: set<Cell>)
    requires m.Covers() && SearchInv(m, [(cur, path)] + queue, visited, done)
    ensures ExpandInv(m, cur, path, queue, visited, done, 0, queue, visited)
    ensures forall p {:trigger SetWalk(m, m.entry, p)} ::
      SetWalk(m, m.entry, p) && EndOf(m.entry, p) == m.exit ==> |path| < |p|
  {
    assert ([(cur, path)] + queue)[0] == (cur, path);
    assert ([(cur, path)] + queue)[1..] == queue;
    CellsAppend([(cur, path)], queue);
    PendingTail(m, (cur, path), queue, visited);
    assert ReachedWithin(m, |path|, visited);
    ExitBeyond(m, |path|, visited);
    assert Order[..0] == [];
  }

  /** After the `for` loop: `cur` is done, and the queue grew by exactly the generated entries. */
  lemma ExpandFinish(m: MazeData, cur: Cell, path: string, queue: seq<Entry>, visited: set<Cell>, done: set<Cell>,
                     queue': seq<Entry>, visited': set<Cell>)
    requires m.Covers() && ExpandInv(m, cur, path, queue, visited, done, |Order|, queue', visited')
    requires visited <= done + Cells([(cur, path)] + queue)
    ensures SearchInv(m, queue', visited', done + {cur})
    ensures m.exit !in Cells(SetFound(m, cur, path, visited))
    ensures queue' == queue + SetFound(m, cur, path, visited) && visited' == visited + Cells(SetFound(m, cur, path, visited))
    ensures |visited'| + |queue| == |visited| + |queue'|
    ensures StaysInGrid(m) && visited <= AllCells(m.width, m.height) ==> visited' <= AllCells(m.width, m.height)
  {
    forall d | SetMove(m, cur, d)
      ensures Step(cur, d) in visited'
    {
      assert d == Order[0] || d == Order[1] || d == Order[2] || d == Order[3];
    }
    CellsAppend([(cur, path)], queue);
    CoverStep(m, |path|, visited, visited', done + {cur}, queue');
    assert Order[..|Order|] == Order;
  }

  /**
   * The `for` loop of `solve` over N, E, S, W for the dequeued `cur`: enqueue every
   * unvisited neighbour behind a set bit, or stop with the path once the exit is generated.
   */
  method Expand(m: MazeData, cur: Cell, path: string, queue: seq<Entry>, visited: set<Cell>, ghost done: set<Cell>)
    returns (hit: Option<string>, queue': seq<Entry>, visited': set<Cell>)
    requires m.Covers()
    requires SearchInv(m, [(cur, path)] + queue, visited, done)
    ensures hit.Some? ==> hit.value != [] && SetWalk(m, m.entry, hit.value) && EndOf(m.entry, hit.value) == m.exit
    ensures hit.Some? ==> forall p {:trigger SetWalk(m, m.entry, p)} ::
      SetWalk(m, m.entry, p) && EndOf(m.entry, p) == m.exit ==> |hit.value| <= |p|
    ensures hit.None? ==> SearchInv(m, queue', visited', done + {cur})
    ensures hit.Some? ==> (m.exit, hit.value) in SetFound(m, cur, path, visited)
    ensures hit.None? ==> m.exit !in Cells(SetFound(m, cur, path, visited))
    ensures hit.None? ==>
      queue' == queue + SetFound(m, cur, path, visited) && visited' == visited + Cells(SetFound(m, cur, path, visited))
    ensures hit.None? ==> |visited'| + |queue| == |visited| + |queue'|
    ensures hit.None? && StaysInGrid(m) && visited <= AllCells(m.width, m.height) ==>
      visited' <= AllCells(m.width, m.height)
  {
    ExpandStart(m, cur, path, queue, visited, done);
    queue', visited' := queue, visited;
    var walls := m.GetWalls(cur.0, cur.1);
    for k := 0 to |Order|
      invariant ExpandInv(m, cur, path, queue, visited, done, k, queue', visited')
    {
      hit, queue', visited' := TryMove(m, cur, path, queue, visited, done, k, walls, queue', visited');
      if hit.Some? {
        return;
      }
    }
    ExpandFinish(m, cur, path, queue, visited, done, queue', visited');
    hit := None;
  }

  /** An exhausted queue: every set-bit walk from the entry stays in the grid and misses the exit. */
  lemma ExhaustedSearch(m: MazeData, visited: set<Cell>, done: set<Cell>)
    requires m.Covers() && SearchInv(m, [], visited, done)
    ensures !SetReachable(m, m.exit)
    ensures forall p {:trigger SetWalk(m, m.entry, p)} ::
      SetWalk(m, m.entry, p) ==> InGrid(EndOf(m.entry, p), m.width, m.height)
  {
    assert visited == done;
    forall p | SetWalk(m, m.entry, p)
      ensures EndOf(m.entry, p) != m.exit
    {
      SetWalkClosed(m, m.entry, done, p);
    }
    ClosedSetStaysInGrid(m, done, m.entry);
  }

  /** One open passage: the west cell is walled N, S and W (13), the east cell N, E and S (7). */
  const ONE_PASSAGE: MazeData := MazeData([[13, 7]], 2, 1, (0, 0), (1, 0))

  /**
   * The test on the wall bit is inverted against the comment beside it: the
   * walk "E" through the open door of `ONE_PASSAGE` is never a set-bit walk, so
   * `Pathfinder.Solve` cannot return it, while "NES" (out through the north
   * wall, along the outside, back in through the exit's north wall) is one
   * that ends at the exit.
   */
  lemma OpenPassageRefused()
    ensures ONE_PASSAGE.Covers()
    ensures OpenWalk(ONE_PASSAGE.gridResult, 2, 1, (0, 0), "E") && EndOf((0, 0), "E") == ONE_PASSAGE.exit
    ensures !SetWalk(ONE_PASSAGE, (0, 0), "E")
    ensures SetWalk(ONE_PASSAGE, (0, 0), "NES") && EndOf((0, 0), "NES") == ONE_PASSAGE.exit
  {
  }
}

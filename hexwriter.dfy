/**
 * The breadth-first solver through open walls and the content of the output file
 * (`src/solver/hex_writer.py`).
 */
module HexWriter {
  import opened Wrappers
  import opened Walls
  import opened Grids
  import opened Text
  import opened Queues

  /** The queue entries for the moves `ds` out of `cur`, reached by `path`. */
  function Entries(cur: Cell, path: string, ds: seq<Dir>): (r: seq<Entry>)
    ensures |r| == |ds|
    ensures forall i {:trigger r[i]} :: 0 <= i < |ds| ==> r[i] == (Step(cur, ds[i]), path + [Letter(ds[i])])
  {
    if ds == [] then []
    else Entries(cur, path, ds[..|ds| - 1]) + [(Step(cur, ds[|ds| - 1]), path + [Letter(ds[|ds| - 1])])]
  }

  lemma {:induction false} EntriesCells(cur: Cell, path: string, ds: seq<Dir>, c: Cell)
    ensures c in Cells(Entries(cur, path, ds)) <==> exists d :: d in ds && Step(cur, d) == c
  {
    var e := Entries(cur, path, ds);
    CellsIndex(e, c);
    if c in Cells(e) {
      var i :| 0 <= i < |e| && e[i].0 == c;
      assert ds[i] in ds;
    }
    if exists d :: d in ds && Step(cur, d) == c {
      var d :| d in ds && Step(cur, d) == c;
      var i :| 0 <= i < |ds| && ds[i] == d;
      assert e[i].0 == c;
    }
  }

  /** The moves of `ds`, in order, that `solve_bfs` takes out of `cur`: open and to an unseen cell. */
  function Expandable(g: Grid, width: int, height: int, cur: Cell, visited: set<Cell>, ds: seq<Dir>): (r: seq<Dir>)
    ensures forall d {:trigger d in r} {:trigger Open(g, width, height, cur, d)} ::
      d in r <==> d in ds && Open(g, width, height, cur, d) && Step(cur, d) !in visited
    ensures |r| <= |ds|
  {
    if ds == [] then []
    else
      var prev := Expandable(g, width, height, cur, visited, ds[..|ds| - 1]);
      var d := ds[|ds| - 1];
      assert forall e :: e in ds <==> e in ds[..|ds| - 1] || e == d;
      if Open(g, width, height, cur, d) && Step(cur, d) !in visited then prev + [d] else prev
  }

  predicate Distinct<T(==)>(s: seq<T>) {
    forall i, j :: 0 <= i < j < |s| ==> s[i] != s[j]
  }

  /** Filtering a sequence of distinct directions keeps them distinct. */
  lemma {:induction false} ExpandableDistinct(g: Grid, width: int, height: int, cur: Cell, visited: set<Cell>, ds: seq<Dir>)
    requires Distinct(ds)
    ensures Distinct(Expandable(g, width, height, cur, visited, ds))
    decreases |ds|
  {
    if ds != [] {
      var ds' := ds[..|ds| - 1];
      ExpandableDistinct(g, width, height, cur, visited, ds');
      assert ds[|ds| - 1] !in ds';
    }
  }

  /** There is an open walk from `entry` to `c`. */
  ghost predicate ReachableFrom(g: Grid, width: int, height: int, entry: Cell, c: Cell) {
    exists p :: OpenWalk(g, width, height, entry, p) && EndOf(entry, p) == c
  }

  /*
   * The invariant of the `solve_bfs` loop. `done` holds the dequeued cells, `dist`
   * the length of the path each visited cell was enqueued with.
   */

  /** The bookkeeping: visited cells are the dequeued ones and the queued ones, each once. */
  ghost predicate Books(width: int, height: int, entry: Cell, queue: seq<Entry>, visited: set<Cell>,
                        done: set<Cell>, dist: map<Cell, nat>)
  {
    && entry in visited && visited <= AllCells(width, height) && visited == dist.Keys
    && visited == done + Cells(queue) && done !! Cells(queue)
    && (forall i, j :: 0 <= i < j < |queue| ==> queue[i].0 != queue[j].0)
  }

  /** Every queued path is an open walk to its cell, of length `dist`, in nondecreasing order spanning one level. */
  ghost predicate Paths(g: Grid, width: int, height: int, entry: Cell, queue: seq<Entry>, dist: map<Cell, nat>) {
    && (forall i :: 0 <= i < |queue| ==>
          OpenWalk(g, width, height, entry, queue[i].1) && EndOf(entry, queue[i].1) == queue[i].0
          && queue[i].0 in dist && dist[queue[i].0] == |queue[i].1|)
    && (forall i, j :: 0 <= i <= j < |queue| ==> |queue[i].1| <= |queue[j].1| <= |queue[i].1| + 1)
  }

  /** `dist` is optimal: no open walk reaches a visited cell in fewer steps. */
  ghost predicate Optimal(g: Grid, width: int, height: int, entry: Cell, visited: set<Cell>, dist: map<Cell, nat>) {
    forall p {:trigger OpenWalk(g, width, height, entry, p)} ::
      OpenWalk(g, width, height, entry, p) && EndOf(entry, p) in visited && EndOf(entry, p) in dist
      ==> dist[EndOf(entry, p)] <= |p|
  }

  /** Every open walk no longer than the head's path ends in a visited cell. */
  ghost predicate Covered(g: Grid, width: int, height: int, entry: Cell, queue: seq<Entry>, visited: set<Cell>) {
    |queue| > 0 ==>
      forall p {:trigger OpenWalk(g, width, height, entry, p)} ::
        OpenWalk(g, width, height, entry, p) && |p| <= |queue[0].1| ==> EndOf(entry, p) in visited
  }

  /** Dequeued cells are fully expanded, and none of them is the exit. */
  ghost predicate Expanded(g: Grid, width: int, height: int, exit: Cell, visited: set<Cell>, done: set<Cell>) {
    && (forall c, d {:trigger Open(g, width, height, c, d)} :: c in done && Open(g, width, height, c, d) ==> Step(c, d) in visited)
    && exit !in done
  }

  ghost predicate BfsInv(g: Grid, width: int, height: int, entry: Cell, exit: Cell, queue: seq<Entry>,
                         visited: set<Cell>, done: set<Cell>, dist: map<Cell, nat>)
  {
    && Books(width, height, entry, queue, visited, done, dist)
    && Paths(g, width, height, entry, queue, dist)
    && Optimal(g, width, height, entry, visited, dist)
    && Covered(g, width, height, entry, queue, visited)
    && Expanded(g, width, height, exit, visited, done)
  }

  /** The lengths after dequeuing `(cur, path)`: old cells keep theirs, the `found` ones are one step further. */
  ghost function NextDist(dist: map<Cell, nat>, visited: set<Cell>, found: seq<Entry>, len: nat): map<Cell, nat> {
    map c | c in visited + Cells(found) :: if c in dist then dist[c] else len
  }

  /** The queue's entries as the search enqueues them after dequeuing `(cur, path)`. */
  function Found(g: Grid, width: int, height: int, cur: Cell, path: string, visited: set<Cell>): seq<Entry> {
    Entries(cur, path, Expandable(g, width, height, cur, visited, Order))
  }

  lemma BfsInit(g: Grid, width: int, height: int, entry: Cell, exit: Cell)
    requires InGrid(entry, width, height)
    ensures BfsInv(g, width, height, entry, exit, [(entry, "")], {entry}, {}, map[entry := 0])
  {
    forall p {:trigger OpenWalk(g, width, height, entry, p)} | OpenWalk(g, width, height, entry, p) && |p| <= 0
      ensures EndOf(entry, p) in {entry}
    {
      assert p == [];
    }
  }

  /** One turn of the loop that does not stop at the exit keeps the invariant. */
  lemma BfsStep(g: Grid, width: int, height: int, entry: Cell, exit: Cell, queue: seq<Entry>,
                visited: set<Cell>, done: set<Cell>, dist: map<Cell, nat>)
    requires BfsInv(g, width, height, entry, exit, queue, visited, done, dist)
    requires |queue| > 0 && queue[0].0 != exit
    ensures var cur, path := queue[0].0, queue[0].1;
      var found := Found(g, width, height, cur, path, visited);
      BfsInv(g, width, height, entry, exit, queue[1..] + found, visited + Cells(found), done + {cur},
             NextDist(dist, visited, found, |path| + 1))
  {
    var cur, path := queue[0].0, queue[0].1;
    var ds := Expandable(g, width, height, cur, visited, Order);
    var found := Found(g, width, height, cur, path, visited);
    var q2, v2, done2, dist2 := queue[1..] + found, visited + Cells(found), done + {cur},
      NextDist(dist, visited, found, |path| + 1);
    FoundCells(g, width, height, cur, path, visited);
    StepBooks(width, height, entry, queue, visited, done, dist, found);
    StepPaths(g, width, height, entry, queue, visited, done, dist);
    StepOptimal(g, width, height, entry, queue, visited, done, dist);
    HeadIsShortest(g, width, height, entry, q2, dist2);
    CellsAppend(queue[1..], found);
    StepExpanded(g, width, height, exit, cur, path, visited, done);
    if |q2| > 0 {
      assert |path| <= |q2[0].1| <= |path| + 1 by {
        if |queue| > 1 {
          assert q2[0] == queue[1];
        } else {
          assert q2[0] == found[0];
        }
      }
      StepCover(g, width, height, entry, exit, queue, visited, done, found, dist2);
    }
  }

  /** The found cells are fresh in-grid neighbours of `cur`, distinct from one another. */
  lemma FoundCells(g: Grid, width: int, height: int, cur: Cell, path: string, visited: set<Cell>)
    ensures var ds := Expandable(g, width, height, cur, visited, Order);
      var found := Found(g, width, height, cur, path, visited);
      && (forall c :: c in Cells(found) ==> c !in visited && c in AllCells(width, height))
      && (forall i, j :: 0 <= i < j < |found| ==> found[i].0 != found[j].0)
      && (forall i :: 0 <= i < |found| ==> Open(g, width, height, cur, ds[i]))
  {
    var ds := Expandable(g, width, height, cur, visited, Order);
    var found := Found(g, width, height, cur, path, visited);
    forall c | c in Cells(found)
      ensures c !in visited && c in AllCells(width, height)
    {
      EntriesCells(cur, path, ds, c);
    }
    ExpandableDistinct(g, width, height, cur, visited, Order);
    forall i, j | 0 <= i < j < |found|
      ensures found[i].0 != found[j].0
    {
      assert ds[i] != ds[j];
    }
    forall i | 0 <= i < |found|
      ensures Open(g, width, height, cur, ds[i])
    {
      assert ds[i] in ds;
    }
  }

  lemma StepBooks(width: int, height: int, entry: Cell, queue: seq<Entry>,
                  visited: set<Cell>, done: set<Cell>, dist: map<Cell, nat>, found: seq<Entry>)
    requires Books(width, height, entry, queue, visited, done, dist)
    requires |queue| > 0
    requires forall c :: c in Cells(found) ==> c !in visited && c in AllCells(width, height)
    requires forall i, j :: 0 <= i < j < |found| ==> found[i].0 != found[j].0
    ensures Books(width, height, entry, queue[1..] + found, visited + Cells(found), done + {queue[0].0},
                  NextDist(dist, visited, found, |queue[0].1| + 1))
  {
    var cur := queue[0].0;
    CellsAppend(queue[1..], found);
    CellsIndex(queue[1..], cur);
    AppendDistinct(queue[1..], found);
  }

  /** Two queues of distinct cells with no cell in common concatenate to one. */
  lemma AppendDistinct(q: seq<Entry>, r: seq<Entry>)
    requires forall i, j :: 0 <= i < j < |q| ==> q[i].0 != q[j].0
    requires forall i, j :: 0 <= i < j < |r| ==> r[i].0 != r[j].0
    requires Cells(q) !! Cells(r)
    ensures forall i, j :: 0 <= i < j < |q + r| ==> (q + r)[i].0 != (q + r)[j].0
  {
    var s := q + r;
    forall i, j | 0 <= i < j < |s|
      ensures s[i].0 != s[j].0
    {
      if i < |q| <= j {
        CellsIndex(q, s[i].0);
        CellsIndex(r, s[j].0);
        assert r[j - |q|] == s[j];
      } else if |q| <= i {
        assert s[i] == r[i - |q|] && s[j] == r[j - |q|];
      }
    }
  }

  lemma StepPaths(g: Grid, width: int, height: int, entry: Cell, queue: seq<Entry>,
                  visited: set<Cell>, done: set<Cell>, dist: map<Cell, nat>)
    requires Books(width, height, entry, queue, visited, done, dist)
    requires Paths(g, width, height, entry, queue, dist)
    requires |queue| > 0
    ensures var cur, path := queue[0].0, queue[0].1;
      var found := Found(g, width, height, cur, path, visited);
      Paths(g, width, height, entry, queue[1..] + found, NextDist(dist, visited, found, |path| + 1))
  {
    var cur, path := queue[0].0, queue[0].1;
    var ds := Expandable(g, width, height, cur, visited, Order);
    var found := Found(g, width, height, cur, path, visited);
    var q2, dist2 := queue[1..] + found, NextDist(dist, visited, found, |path| + 1);
    FoundCells(g, width, height, cur, path, visited);
    CellsAppend(queue[1..], found);
    var n := |queue| - 1;
    forall i | 0 <= i < |q2|
      ensures OpenWalk(g, width, height, entry, q2[i].1) && EndOf(entry, q2[i].1) == q2[i].0
      ensures q2[i].0 in dist2 && dist2[q2[i].0] == |q2[i].1|
    {
      if i < n {
        assert q2[i] == queue[i + 1];
      } else {
        assert q2[i] == found[i - n];
        OpenWalkSnoc(g, width, height, entry, path, ds[i - n]);
        CellsIndex(found, q2[i].0);
      }
    }
    forall i, j | 0 <= i <= j < |q2|
      ensures |q2[i].1| <= |q2[j].1| <= |q2[i].1| + 1
    {
      if j < n {
        assert q2[i] == queue[i + 1] && q2[j] == queue[j + 1];
      } else if i < n {
        assert q2[i] == queue[i + 1] && |q2[j].1| == |path| + 1;
        assert |queue[0].1| <= |queue[i + 1].1| <= |queue[0].1| + 1;
      } else {
        assert |q2[i].1| == |path| + 1 == |q2[j].1|;
      }
    }
  }

  lemma StepOptimal(g: Grid, width: int, height: int, entry: Cell, queue: seq<Entry>,
                    visited: set<Cell>, done: set<Cell>, dist: map<Cell, nat>)
    requires Books(width, height, entry, queue, visited, done, dist)
    requires Optimal(g, width, height, entry, visited, dist) && Covered(g, width, height, entry, queue, visited)
    requires |queue| > 0
    ensures var cur, path := queue[0].0, queue[0].1;
      var found := Found(g, width, height, cur, path, visited);
      Optimal(g, width, height, entry, visited + Cells(found), NextDist(dist, visited, found, |path| + 1))
  {
    var cur, path := queue[0].0, queue[0].1;
    var found := Found(g, width, height, cur, path, visited);
    var v2, dist2 := visited + Cells(found), NextDist(dist, visited, found, |path| + 1);
    forall p {:trigger OpenWalk(g, width, height, entry, p)} | OpenWalk(g, width, height, entry, p) && EndOf(entry, p) in v2 && EndOf(entry, p) in dist2
      ensures dist2[EndOf(entry, p)] <= |p|
    {
    }
  }

  /** The head of a queue carries the shortest path of all queued cells. */
  lemma HeadIsShortest(g: Grid, width: int, height: int, entry: Cell, queue: seq<Entry>, dist: map<Cell, nat>)
    requires Paths(g, width, height, entry, queue, dist)
    ensures forall a :: a in Cells(queue) ==> a in dist && dist[a] >= |queue[0].1|
  {
    forall a | a in Cells(queue)
      ensures a in dist && dist[a] >= |queue[0].1|
    {
      CellsIndex(queue, a);
      var i :| 0 <= i < |queue| && queue[i].0 == a;
    }
  }

  lemma StepExpanded(g: Grid, width: int, height: int, exit: Cell, cur: Cell, path: string,
                     visited: set<Cell>, done: set<Cell>)
    requires Expanded(g, width, height, exit, visited, done)
    requires cur != exit
    ensures Expanded(g, width, height, exit, visited + Cells(Found(g, width, height, cur, path, visited)), done + {cur})
  {
    var ds := Expandable(g, width, height, cur, visited, Order);
    var v2 := visited + Cells(Found(g, width, height, cur, path, visited));
    forall c, d | c in done + {cur} && Open(g, width, height, c, d)
      ensures Step(c, d) in v2
    {
      if c == cur && Step(c, d) !in visited {
        assert d in ds;
        EntriesCells(cur, path, ds, Step(c, d));
      }
    }
  }

  /** Once the head moves one level deeper, every walk one step longer also ends in a visited cell. */
  lemma StepCover(g: Grid, width: int, height: int, entry: Cell, exit: Cell, queue: seq<Entry>, visited: set<Cell>,
                  done: set<Cell>, found: seq<Entry>, dist2: map<Cell, nat>)
    requires |queue| > 0 && |queue[1..] + found| > 0
    requires Covered(g, width, height, entry, queue, visited)
    requires visited == done + Cells(queue)
    requires Expanded(g, width, height, exit, visited + Cells(found), done + {queue[0].0})
    requires Optimal(g, width, height, entry, visited + Cells(found), dist2)
    requires Cells(queue[1..] + found) == Cells(queue[1..]) + Cells(found)
    requires forall a :: a in Cells(queue[1..] + found) ==> a in dist2 && dist2[a] >= |(queue[1..] + found)[0].1|
    requires |queue[0].1| <= |(queue[1..] + found)[0].1| <= |queue[0].1| + 1
    ensures Covered(g, width, height, entry, queue[1..] + found, visited + Cells(found))
  {
    var q2, v2 := queue[1..] + found, visited + Cells(found);
    forall p {:trigger OpenWalk(g, width, height, entry, p)} | OpenWalk(g, width, height, entry, p) && |p| <= |q2[0].1|
      ensures EndOf(entry, p) in v2
    {
      if |p| > |queue[0].1| {
        var q := p[..|p| - 1];
        var a := EndOf(entry, q);
        assert OpenWalk(g, width, height, entry, q);
        assert a !in Cells(q2);
      }
    }
  }

  /** One more direction of `Order` either adds itself to the expandable moves or nothing. */
  lemma ExpandableSnoc(g: Grid, width: int, height: int, cur: Cell, visited: set<Cell>, k: nat)
    requires k < |Order|
    ensures var prev, d := Expandable(g, width, height, cur, visited, Order[..k]), Order[k];
      Expandable(g, width, height, cur, visited, Order[..k + 1])
        == if Open(g, width, height, cur, d) && Step(cur, d) !in visited then prev + [d] else prev
  {
    assert Order[..k + 1][..k] == Order[..k];
  }

  lemma EntriesSnoc(cur: Cell, path: string, ds: seq<Dir>, d: Dir)
    ensures Entries(cur, path, ds + [d]) == Entries(cur, path, ds) + [(Step(cur, d), path + [Letter(d)])]
  {
    assert (ds + [d])[..|ds|] == ds;
  }

  /** The neighbour toward `Order[k]` is not among those found through the earlier directions. */
  lemma FreshNeighbour(g: Grid, width: int, height: int, cur: Cell, path: string, visited: set<Cell>, k: nat)
    requires k < |Order|
    ensures Step(cur, Order[k]) !in Cells(Entries(cur, path, Expandable(g, width, height, cur, visited, Order[..k])))
  {
    var prev := Expandable(g, width, height, cur, visited, Order[..k]);
    EntriesCells(cur, path, prev, Step(cur, Order[k]));
  }

  /** The entries found through the first `k` directions of `Order`. */
  function FoundUpTo(g: Grid, width: int, height: int, cur: Cell, path: string, visited: set<Cell>, k: nat): seq<Entry>
    requires k <= |Order|
  {
    Entries(cur, path, Expandable(g, width, height, cur, visited, Order[..k]))
  }

  /** Direction `Order[k]` adds its neighbour exactly when that move is open and the neighbour unseen. */
  lemma FoundUpToStep(g: Grid, width: int, height: int, cur: Cell, path: string, visited: set<Cell>, k: nat)
    requires k < |Order|
    ensures var d, e := Order[k], FoundUpTo(g, width, height, cur, path, visited, k);
      && Step(cur, d) !in Cells(e)
      && FoundUpTo(g, width, height, cur, path, visited, k + 1)
         == (if Open(g, width, height, cur, d) && Step(cur, d) !in visited then e + [(Step(cur, d), path + [Letter(d)])] else e)
      && Cells(e + [(Step(cur, d), path + [Letter(d)])]) == Cells(e) + {Step(cur, d)}
  {
    var d := Order[k];
    var prev := Expandable(g, width, height, cur, visited, Order[..k]);
    ExpandableSnoc(g, width, height, cur, visited, k);
    FreshNeighbour(g, width, height, cur, path, visited, k);
    EntriesSnoc(cur, path, prev, d);
    CellsAppend(Entries(cur, path, prev), [(Step(cur, d), path + [Letter(d)])]);
  }

  /** One pass of the `for` loop of `solve_bfs`: direction `Order[k]` enqueues its neighbour when open, in the grid and unseen. */
  method TryDirection(g: Grid, width: int, height: int, cur: Cell, path: string, ghost queue: seq<Entry>,
                      ghost visited: set<Cell>, k: nat, q: seq<Entry>, v: set<Cell>)
    returns (q': seq<Entry>, v': set<Cell>)
    requires IsRect(g, width, height) && InGrid(cur, width, height) && k < |Order|
    requires q == queue + FoundUpTo(g, width, height, cur, path, visited, k)
    requires v == visited + Cells(FoundUpTo(g, width, height, cur, path, visited, k))
    ensures q' == queue + FoundUpTo(g, width, height, cur, path, visited, k + 1)
    ensures v' == visited + Cells(FoundUpTo(g, width, height, cur, path, visited, k + 1))
  {
    var d := Order[k];
    var next := Step(cur, d);
    ghost var e := FoundUpTo(g, width, height, cur, path, visited, k);
    FoundUpToStep(g, width, height, cur, path, visited, k);
    q', v' := q, v;
    if !HasWall(At(g, cur), d) {
      if 0 <= next.0 < width && 0 <= next.1 < height {
        assert Open(g, width, height, cur, d);
        assert next in v <==> next in visited;
        if next !in v {
          v' := v + {next};
          q' := q + [(next, path + [Letter(d)])];
          assert q' == queue + (e + [(next, path + [Letter(d)])]);
        }
      }
    }
  }

  /** The `for` loop of `solve_bfs` over N, E, S, W: enqueue each open, in-grid, unseen neighbour of `cur`. */
  method ExpandHead(g: Grid, width: int, height: int, cur: Cell, path: string, queue: seq<Entry>, visited: set<Cell>)
    returns (queue': seq<Entry>, visited': set<Cell>)
    requires IsRect(g, width, height) && InGrid(cur, width, height)
    ensures queue' == queue + Found(g, width, height, cur, path, visited)
    ensures visited' == visited + Cells(Found(g, width, height, cur, path, visited))
  {
    queue', visited' := queue, visited;
    for k := 0 to |Order|
      invariant queue' == queue + FoundUpTo(g, width, height, cur, path, visited, k)
      invariant visited' == visited + Cells(FoundUpTo(g, width, height, cur, path, visited, k))
    {
      queue', visited' := TryDirection(g, width, height, cur, path, queue, visited, k, queue', visited');
    }
    assert Order[..|Order|] == Order;
  }

  /**
   * `solve_bfs`: breadth-first search from `entry` through cleared wall bits, trying
   * N, E, S, W in turn; the exit is recognised when it is dequeued. `iterations` counts
   * the dequeues.
   */
  method SolveBfs(g: Grid, entry: Cell, exit: Cell) returns (r: Option<string>, ghost iterations: nat)
    requires |g| > 0 && IsRect(g, |g[0]|, |g|)
    requires InGrid(entry, |g[0]|, |g|)
    ensures r.Some? ==> OpenWalk(g, |g[0]|, |g|, entry, r.value) && EndOf(entry, r.value) == exit
    ensures r.Some? ==> forall p {:trigger OpenWalk(g, |g[0]|, |g|, entry, p)} :: OpenWalk(g, |g[0]|, |g|, entry, p) && EndOf(entry, p) == exit ==> |r.value| <= |p|
    ensures r.None? <==> !ReachableFrom(g, |g[0]|, |g|, entry, exit)
    ensures entry == exit ==> r == Some("")
    ensures iterations <= |g[0]| * |g|
  {
    var height := |g|;
    var width := |g[0]|;
    var queue: seq<Entry> := [(entry, "")];
    var visited: set<Cell> := {entry};
    ghost var done: set<Cell> := {};
    ghost var dist: map<Cell, nat> := map[entry := 0];
    iterations := 0;
    BfsInit(g, width, height, entry, exit);
    AllCellsCard(width, height);
    while |queue| > 0
      invariant BfsInv(g, width, height, entry, exit, queue, visited, done, dist)
      invariant iterations == |done|
      decreases AllCells(width, height) - done
    {
      ghost var queue0, visited0, dist0 := queue, visited, dist;
      var cur := queue[0].0;
      var path := queue[0].1;
      queue := queue[1..];
      iterations := iterations + 1;
      assert cur in Cells(queue0) && InGrid(cur, width, height);
      SubsetCard(done + {cur}, AllCells(width, height));
      if cur == exit {
        r := Some(path);
        assert |path| == dist[exit];
        return;
      }
      queue, visited := ExpandHead(g, width, height, cur, path, queue, visited);
      BfsStep(g, width, height, entry, exit, queue0, visited0, done, dist0);
      dist := NextDist(dist0, visited0, Found(g, width, height, cur, path, visited0), |path| + 1);
      done := done + {cur};
    }
    r := None;
    SubsetCard(done, AllCells(width, height));
    forall p {:trigger OpenWalk(g, width, height, entry, p)} | OpenWalk(g, width, height, entry, p)
      ensures EndOf(entry, p) != exit
    {
      ClosedSetContainsWalks(g, width, height, entry, done, p);
    }
  }

  /*
   * The content of the output file.
   */

  const HEX_DIGITS: string := "0123456789ABCDEF"

  /** `format(cell, "X")` for a mask: one uppercase hexadecimal digit. */
  function HexDigit(m: Mask): char {
    HEX_DIGITS[m as int]
  }

  /** Reading one hexadecimal digit back. */
  function HexValue(c: char): (r: Option<Mask>)
    ensures r.Some? ==> HexDigit(r.value) == c
  {
    if '0' <= c <= '9' then Some((c as int - '0' as int) as Mask)
    else if 'A' <= c <= 'F' then Some((c as int - 'A' as int + 10) as Mask)
    else None
  }

  lemma HexRoundTrip(m: Mask)
    ensures HexValue(HexDigit(m)) == Some(m)
  {
  }

  /** A grid row as written: one digit per cell. */
  function RowLine(row: seq<Mask>): string {
    seq(|row|, i requires 0 <= i < |row| => HexDigit(row[i]))
  }

  /** Every row line has exactly one uppercase hexadecimal digit per cell. */
  lemma RowLineWidth(row: seq<Mask>)
    ensures |RowLine(row)| == |row|
    ensures forall i :: 0 <= i < |row| ==> RowLine(row)[i] in HEX_DIGITS
  {
  }

  /** `f"{x},{y}"`. */
  function CoordLine(c: Cell): string {
    IntToString(c.0) + "," + IntToString(c.1)
  }

  function RowLines(g: Grid): seq<string> {
    seq(|g|, y requires 0 <= y < |g| => RowLine(g[y]))
  }

  /** The lines of the file: the rows, an empty line, the entry, the exit and the path. */
  function FileLines(g: Grid, entry: Cell, exit: Cell, path: string): seq<string> {
    RowLines(g) + ["", CoordLine(entry), CoordLine(exit), path]
  }

  /** The lines, each ended by a newline. */
  function Unlines(lines: seq<string>): string {
    if lines == [] then "" else Unlines(lines[..|lines| - 1]) + lines[|lines| - 1] + "\n"
  }

  /** What `write_maze_file` writes for a grid, the entry and exit, and the path. */
  function FileContent(g: Grid, entry: Cell, exit: Cell, path: string): string {
    Unlines(FileLines(g, entry, exit, path))
  }

  /** Reading a coordinate line back: two integers around one comma. */
  function ParseCoord(line: string): Option<Cell> {
    var parts := Split(line, ',');
    if |parts| != 2 then None
    else
      match (ParseInt(parts[0]), ParseInt(parts[1]))
      case (Some(x), Some(y)) => Some((x, y))
      case _ => None
  }

  /** Reading a row line back, digit by digit. */
  function ParseRow(line: string): Option<seq<Mask>> {
    if line == [] then Some([])
    else
      match (ParseRow(line[..|line| - 1]), HexValue(line[|line| - 1]))
      case (Some(row), Some(m)) => Some(row + [m])
      case _ => None
  }

  function ParseRows(lines: seq<string>): Option<Grid> {
    if lines == [] then Some([])
    else
      match (ParseRows(lines[..|lines| - 1]), ParseRow(lines[|lines| - 1]))
      case (Some(g), Some(row)) => Some(g + [row])
      case _ => None
  }

  /** Reading a whole file back: the fixed last four lines follow the rows. */
  function ParseFile(content: string): Option<(Grid, Cell, Cell, string)> {
    var lines := Split(content, '\n');
    if |lines| < 5 || lines[|lines| - 1] != "" || lines[|lines| - 5] != "" then None
    else
      var n := |lines| - 5;
      match (ParseRows(lines[..n]), ParseCoord(lines[n + 1]), ParseCoord(lines[n + 2]))
      case (Some(g), Some(entry), Some(exit)) => Some((g, entry, exit, lines[n + 3]))
      case _ => None
  }

  lemma {:induction false} UnlinesJoin(lines: seq<string>)
    ensures Unlines(lines) == Join(lines + [""], '\n')
    decreases |lines|
  {
    if lines != [] {
      var init, last := lines[..|lines| - 1], lines[|lines| - 1];
      UnlinesJoin(init);
      JoinSnoc(init, last, '\n');
      assert init + [last] == lines;
    }
  }

  /** Joining with one more empty piece at the end appends a separator. */
  lemma {:induction false} JoinSnoc(init: seq<string>, last: string, sep: char)
    ensures Join(init + [last] + [""], sep) == Join(init + [""], sep) + last + [sep]
    decreases |init|
  {
    if init == [] {
      assert [last] + [""] == [last, ""];
      assert Join([last, ""], sep) == last + [sep] + Join([""], sep);
    } else {
      assert (init + [last] + [""])[1..] == init[1..] + [last] + [""];
      assert (init + [""])[1..] == init[1..] + [""];
      JoinSnoc(init[1..], last, sep);
    }
  }

  lemma {:induction false} ParseRowLine(row: seq<Mask>)
    ensures ParseRow(RowLine(row)) == Some(row)
    decreases |row|
  {
    if row != [] {
      var init := row[..|row| - 1];
      assert RowLine(row)[..|row| - 1] == RowLine(init);
      ParseRowLine(init);
      HexRoundTrip(row[|row| - 1]);
      var line := RowLine(row);
      assert line[|line| - 1] == HexDigit(row[|row| - 1]);
      assert row == init + [row[|row| - 1]];
    } else {
      assert RowLine(row) == [];
    }
  }

  lemma {:induction false} ParseRowsLines(g: Grid)
    ensures ParseRows(RowLines(g)) == Some(g)
    decreases |g|
  {
    if g != [] {
      var init := g[..|g| - 1];
      var lines := RowLines(g);
      assert lines[..|g| - 1] == seq(|init|, y requires 0 <= y < |init| => RowLine(init[y]));
      ParseRowsLines(init);
      ParseRowLine(g[|g| - 1]);
      assert lines[|g| - 1] == RowLine(g[|g| - 1]);
      assert g == init + [g[|g| - 1]];
    } else {
      assert RowLines(g) == [];
    }
  }

  lemma ParseCoordLine(c: Cell)
    ensures ParseCoord(CoordLine(c)) == Some(c)
  {
    var a, b := IntToString(c.0), IntToString(c.1);
    assert ',' !in a && ',' !in b;
    SplitJoin([a, b], ',');
    assert Join([a, b], ',') == CoordLine(c);
    ParseIntToString(c.0);
    ParseIntToString(c.1);
  }

  lemma CoordLineWithoutNewline(c: Cell)
    ensures '\n' !in CoordLine(c)
  {
    assert '\n' !in IntToString(c.0) && '\n' !in IntToString(c.1);
  }

  /** Neither a row line, a coordinate line nor a newline-free path holds a newline. */
  lemma LinesWithoutNewline(g: Grid, entry: Cell, exit: Cell, path: string)
    requires '\n' !in path
    ensures var all := FileLines(g, entry, exit, path) + [""];
      forall i :: 0 <= i < |all| ==> '\n' !in all[i]
  {
    var rows := RowLines(g);
    var all := FileLines(g, entry, exit, path) + [""];
    assert all == rows + ["", CoordLine(entry), CoordLine(exit), path, ""];
    CoordLineWithoutNewline(entry);
    CoordLineWithoutNewline(exit);
    forall i | 0 <= i < |all|
      ensures '\n' !in all[i]
    {
      if i < |rows| {
        assert all[i] == rows[i] == RowLine(g[i]);
      } else {
        assert all[i] == ["", CoordLine(entry), CoordLine(exit), path, ""][i - |rows|];
      }
    }
  }

  /** No line of the file holds a newline, so the content splits back into its lines. */
  lemma SplitContent(g: Grid, entry: Cell, exit: Cell, path: string)
    requires '\n' !in path
    ensures Split(FileContent(g, entry, exit, path), '\n') == FileLines(g, entry, exit, path) + [""]
  {
    UnlinesJoin(FileLines(g, entry, exit, path));
    LinesWithoutNewline(g, entry, exit, path);
    SplitJoin(FileLines(g, entry, exit, path) + [""], '\n');
  }

  /** Content that splits into the rows and the four fixed lines parses back to them. */
  lemma ParseSplitFile(content: string, g: Grid, entry: Cell, exit: Cell, path: string)
    requires Split(content, '\n') == RowLines(g) + ["", CoordLine(entry), CoordLine(exit), path, ""]
    ensures ParseFile(content) == Some((g, entry, exit, path))
  {
    var all := Split(content, '\n');
    var n := |g|;
    assert all[..n] == RowLines(g);
    assert |all| == n + 5 && all[n + 4] == "" && all[n] == "";
    assert all[n + 1] == CoordLine(entry) && all[n + 2] == CoordLine(exit) && all[n + 3] == path;
    ParseRowsLines(g);
    ParseCoordLine(entry);
    ParseCoordLine(exit);
  }

  /** Reading the written file back recovers the grid, the entry, the exit and a path without newlines. */
  lemma FileRoundTrip(g: Grid, entry: Cell, exit: Cell, path: string)
    requires '\n' !in path
    ensures ParseFile(FileContent(g, entry, exit, path)) == Some((g, entry, exit, path))
  {
    SplitContent(g, entry, exit, path);
    assert FileLines(g, entry, exit, path) + [""] == RowLines(g) + ["", CoordLine(entry), CoordLine(exit), path, ""];
    ParseSplitFile(FileContent(g, entry, exit, path), g, entry, exit, path);
  }

  /**
   * `write_maze_file`: solve, write `""` for a missing path, and return the path
   * written. The file is returned as its content.
   */
  method WriteMazeFile(g: Grid, entry: Cell, exit: Cell) returns (content: string, path: string)
    requires |g| > 0 && IsRect(g, |g[0]|, |g|)
    requires InGrid(entry, |g[0]|, |g|)
    ensures content == FileContent(g, entry, exit, path)
    ensures !ReachableFrom(g, |g[0]|, |g|, entry, exit) ==> path == ""
    ensures ReachableFrom(g, |g[0]|, |g|, entry, exit) ==>
      OpenWalk(g, |g[0]|, |g|, entry, path) && EndOf(entry, path) == exit
      && forall p {:trigger OpenWalk(g, |g[0]|, |g|, entry, p)} ::
           OpenWalk(g, |g[0]|, |g|, entry, p) && EndOf(entry, p) == exit ==> |path| <= |p|
  {
    var found, _ := SolveBfs(g, entry, exit);
    path := if found.Some? then found.value else "";
    content := FileContent(g, entry, exit, path);
  }
}

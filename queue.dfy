/**
 * The breadth-first queues of both solvers: entries pairing a cell with the letters
 * that reach it, and the set of cells they hold.
 */
module Queues {
  import opened Walls

  /** A queue entry: a cell and the letters that lead to it from the entry. */
  type Entry = (Cell, string)

  /** The cells of the queue entries. */
  function Cells(q: seq<Entry>): set<Cell> {
    if q == [] then {} else {q[0].0} + Cells(q[1..])
  }

  lemma {:induction false} CellsAppend(q: seq<Entry>, r: seq<Entry>)
    ensures Cells(q + r) == Cells(q) + Cells(r)
    decreases |q|
  {
    if q != [] {
      assert (q + r)[0] == q[0] && (q + r)[1..] == q[1..] + r;
      assert Cells(q + r) == {q[0].0} + Cells(q[1..] + r);
      CellsAppend(q[1..], r);
    } else {
      assert q + r == r;
    }
  }

  lemma {:induction false} CellsIndex(q: seq<Entry>, c: Cell)
    ensures c in Cells(q) <==> exists i :: 0 <= i < |q| && q[i].0 == c
    decreases |q|
  {
    if q != [] {
      CellsIndex(q[1..], c);
      if c in Cells(q[1..]) {
        var i :| 0 <= i < |q[1..]| && q[1..][i].0 == c;
        assert q[i + 1].0 == c;
      }
      if c != q[0].0 && exists i :: 0 <= i < |q| && q[i].0 == c {
        var i :| 0 <= i < |q| && q[i].0 == c;
        assert q[1..][i - 1].0 == c;
      }
    }
  }

  /** A subset of a finite set is no larger. */
  lemma {:induction false} SubsetCard<T>(a: set<T>, b: set<T>)
    requires a <= b
    ensures |a| <= |b|
    decreases |b|
  {
    if a != {} {
      var x :| x in a;
      SubsetCard(a - {x}, b - {x});
    }
  }
}

/**
 * Wall masks and directions shared by the generator, the solvers and the renderer.
 * A cell is a 4-bit mask: bit N=1, E=2, S=4, W=8; a set bit is a closed wall.
 */
module Walls {
  import opened Wrappers

  type Mask = bv4

  /** All four walls closed (binary 1111). */
  const ALL_WALLS: Mask := 15

  datatype Dir = N | E | S | W

  /** The iteration order of every `DIRECTIONS` table in the program: N, E, S, W. */
  const Order: seq<Dir> := [N, E, S, W]

  function Bit(d: Dir): Mask {
    match d
    case N => 1
    case E => 2
    case S => 4
    case W => 8
  }

  /** The wall of the neighbour that faces back (`opp` in the generator's table). */
  function Opp(d: Dir): Dir {
    match d
    case N => S
    case E => W
    case S => N
    case W => E
  }

  function DX(d: Dir): int {
    match d
    case N => 0
    case E => 1
    case S => 0
    case W => -1
  }

  function DY(d: Dir): int {
    match d
    case N => -1
    case E => 0
    case S => 1
    case W => 0
  }

  function Letter(d: Dir): char {
    match d
    case N => 'N'
    case E => 'E'
    case S => 'S'
    case W => 'W'
  }

  /** The inverse of `Letter`; `None` for every other character. */
  function DirOf(ch: char): (r: Option<Dir>)
    ensures r.Some? ==> Letter(r.value) == ch
    ensures forall d :: Letter(d) == ch ==> r == Some(d)
  {
    match ch
    case 'N' => Some(N)
    case 'E' => Some(E)
    case 'S' => Some(S)
    case 'W' => Some(W)
    case _ => None
  }

  predicate IsLetter(ch: char) {
    DirOf(ch).Some?
  }

  predicate AllLetters(p: string) {
    forall i :: 0 <= i < |p| ==> IsLetter(p[i])
  }

  /** `m & wall != 0`. */
  predicate HasWall(m: Mask, d: Dir) {
    m & Bit(d) != 0
  }

  /** `m &= ~wall`: opens the wall toward `d` and keeps the other three. */
  function Clear(m: Mask, d: Dir): (r: Mask)
    ensures !HasWall(r, d)
    ensures forall d' :: d' != d ==> (HasWall(r, d') <==> HasWall(m, d'))
    ensures forall d' :: HasWall(r, d') ==> HasWall(m, d')
  {
    m & !Bit(d)
  }

  /** Every mask is determined by its four wall bits. */
  lemma MaskExtensional(a: Mask, b: Mask)
    requires forall d :: HasWall(a, d) <==> HasWall(b, d)
    ensures a == b
  {
    assert HasWall(a, N) == HasWall(b, N);
    assert HasWall(a, E) == HasWall(b, E);
    assert HasWall(a, S) == HasWall(b, S);
    assert HasWall(a, W) == HasWall(b, W);
  }

  /** `ALL_WALLS` has every wall. */
  lemma AllWallsClosed(d: Dir)
    ensures HasWall(ALL_WALLS, d)
  {
  }

  /** Coordinates are `(x, y)`, with y growing southwards. */
  type Cell = (int, int)

  function Step(c: Cell, d: Dir): Cell {
    (c.0 + DX(d), c.1 + DY(d))
  }

  /** One path letter: a direction letter moves one cell, anything else stays put. */
  function Move(c: Cell, ch: char): Cell {
    match DirOf(ch)
    case Some(d) => Step(c, d)
    case None => c
  }

  lemma StepBack(c: Cell, d: Dir)
    ensures Step(Step(c, d), Opp(d)) == c && Opp(Opp(d)) == d
  {
  }

  /** The cell reached by replaying the letters of `p` from `c`. */
  function EndOf(c: Cell, p: string): Cell
    decreases |p|
  {
    if p == [] then c else Move(EndOf(c, p[..|p| - 1]), p[|p| - 1])
  }

  /** Replaying `p + q` is replaying `p`, then `q`. */
  lemma {:induction false} EndOfAppend(c: Cell, p: string, q: string)
    ensures EndOf(c, p + q) == EndOf(EndOf(c, p), q)
    decreases |q|
  {
    if q == [] {
      assert p + q == p;
    } else {
      var q' := q[..|q| - 1];
      assert (p + q)[..|p + q| - 1] == p + q';
      EndOfAppend(c, p, q');
    }
  }
}

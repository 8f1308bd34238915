/**
 * The terminal renderer (`src/display.py`): the cells a path covers, the
 * box-drawing corner between four cells, the lines of one frame, and the menu
 * loop. Printing is replaced by returned strings; ANSI codes are opaque constants.
 */
module Display {
  import opened Wrappers
  import opened Walls
  import opened Grids
  import opened Text
  import Generator

  /*
   * Colours.
   */

  const RESET: string := "\U{001B}[0m"
  const BRIGHT_WHITE: string := "\U{001B}[97m"
  const BRIGHT_YELLOW: string := "\U{001B}[93m"
  const BRIGHT_CYAN: string := "\U{001B}[96m"
  const MAGENTA: string := "\U{001B}[35m"
  const BLUE: string := "\U{001B}[34m"
  const BRIGHT_GREEN: string := "\U{001B}[92m"
  const BRIGHT_RED: string := "\U{001B}[91m"

  /** The seven wall colours the menu cycles through. */
  const WALL_COLOURS: seq<string> :=
    [BRIGHT_WHITE, BRIGHT_YELLOW, BRIGHT_CYAN, MAGENTA, BLUE, BRIGHT_GREEN, BRIGHT_RED]

  /** `_c`: the text wrapped in a colour and a reset. */
  function Colour(text: string, colour: string): string {
    colour + text + RESET
  }

  /*
   * `_path_cells`.
   */

  /** The cells a walk from `e` along `p` occupies, `e` included. */
  function Trail(p: string, e: Cell): (r: set<Cell>)
    ensures e in r && EndOf(e, p) in r
    ensures |r| <= |p| + 1
    decreases |p|
  {
    if p == [] then {e}
    else
      var t := Trail(p[..|p| - 1], e);
      assert |t + {EndOf(e, p)}| <= |t| + 1;
      t + {EndOf(e, p)}
  }

  /** A cell lies on the trail exactly when some prefix of the path ends there. */
  lemma TrailMembers(p: string, e: Cell, c: Cell)
    ensures c in Trail(p, e) <==> exists k {:trigger EndOf(e, p[..k])} :: 0 <= k <= |p| && EndOf(e, p[..k]) == c
  {
    if c in Trail(p, e) {
      var k := TrailWitness(p, e, c);
      assert EndOf(e, p[..k]) == c;
    }
    forall k | 0 <= k <= |p| && EndOf(e, p[..k]) == c
      ensures c in Trail(p, e)
    {
      PrefixOnTrail(p, e, k);
    }
  }

  /** Every cell of the trail is where some prefix of the path ends. */
  lemma {:induction false} TrailWitness(p: string, e: Cell, c: Cell) returns (k: nat)
    requires c in Trail(p, e)
    ensures k <= |p| && EndOf(e, p[..k]) == c
    decreases |p|
  {
    if p == [] {
      k := 0;
      assert p[..0] == p;
    } else {
      var q := p[..|p| - 1];
      if c == EndOf(e, p) {
        k := |p|;
        assert p[..|p|] == p;
      } else {
        k := TrailWitness(q, e, c);
        assert q[..k] == p[..k];
      }
    }
  }

  /** Where each prefix of the path ends is on the trail. */
  lemma {:induction false} PrefixOnTrail(p: string, e: Cell, k: int)
    requires 0 <= k <= |p|
    ensures EndOf(e, p[..k]) in Trail(p, e)
    decreases |p|
  {
    if k == |p| {
      assert p[..k] == p;
    } else {
      var q := p[..|p| - 1];
      PrefixOnTrail(q, e, k);
      assert q[..k] == p[..k];
    }
  }

  /**
   * `_path_cells`: replays the letters from the entry, collecting every cell.
   * A letter other than N, E, S, W raises `KeyError` in the source, hence the precondition.
   */
  method PathCells(path: string, entry: Cell) returns (cells: set<Cell>)
    requires AllLetters(path)
    ensures cells == Trail(path, entry)
  {
    cells := {entry};
    var px, py := entry.0, entry.1;
    assert path[..0] == [];
    for i := 0 to |path|
      invariant Replayed(path, entry, i, px, py, cells)
    {
      var d := DirOf(path[i]).value;
      ghost var (x0, y0, cells0) := (px, py, cells);
      px, py := px + DX(d), py + DY(d);
      cells := cells + {(px, py)};
      TrailAdvance(path, entry, i, x0, y0, cells0, px, py, cells);
    }
    assert path[..|path|] == path;
  }

  /** After `i` letters the position is where `path[..i]` ends and the cells are its trail. */
  ghost predicate Replayed(path: string, entry: Cell, i: nat, px: int, py: int, cells: set<Cell>)
    requires i <= |path|
  {
    (px, py) == EndOf(entry, path[..i]) && cells == Trail(path[..i], entry)
  }

  /** The `i`-th letter moves one cell on and adds that cell to the trail. */
  lemma TrailAdvance(path: string, entry: Cell, i: nat, px: int, py: int, cells: set<Cell>,
                     px': int, py': int, cells': set<Cell>)
    requires AllLetters(path) && i < |path| && Replayed(path, entry, i, px, py, cells)
    requires var d := DirOf(path[i]).value;
      px' == px + DX(d) && py' == py + DY(d) && cells' == cells + {(px', py')}
    ensures Replayed(path, entry, i + 1, px', py', cells')
  {
    assert IsLetter(path[i]);
    assert path[..i + 1] == path[..i] + [path[i]];
    TrailSnoc(path[..i], entry, path[i]);
  }

  /** One more letter adds the cell it leads to. */
  lemma TrailSnoc(p: string, e: Cell, ch: char)
    ensures EndOf(e, p + [ch]) == Move(EndOf(e, p), ch)
    ensures Trail(p + [ch], e) == Trail(p, e) + {Move(EndOf(e, p), ch)}
  {
    var q := p + [ch];
    assert q[..|q| - 1] == p && q[|q| - 1] == ch;
  }

  /*
   * `_corner_char`.
   */

  /** The grid has a first row to take the width from, and every row is that wide. */
  predicate Rect(g: Grid) {
    |g| > 0 && IsRect(g, |g[0]|, |g|)
  }

  /** `has`: the cell lies in the grid and carries the wall toward `d`. */
  predicate Has(g: Grid, x: int, y: int, d: Dir)
    requires Rect(g)
  {
    InGrid((x, y), |g[0]|, |g|) && HasWall(At(g, (x, y)), d)
  }

  /** Four flags packed as `b3 << 3 | b2 << 2 | b1 << 1 | b0`. */
  function Pack(b3: bool, b2: bool, b1: bool, b0: bool): (k: nat)
    ensures k < 16
    ensures k == 0 <==> !b3 && !b2 && !b1 && !b0
  {
    (if b3 then 8 else 0) + (if b2 then 4 else 0) + (if b1 then 2 else 0) + (if b0 then 1 else 0)
  }

  /** The sixteen corner glyphs (one character each), indexed as the source indexes them. */
  const CORNER: map<nat, char> := map[
    0 := ' ', 1 := '\U{2574}', 2 := '\U{2576}', 3 := '\U{2500}',
    4 := '\U{2575}', 5 := '\U{2518}', 6 := '\U{2514}', 7 := '\U{2534}',
    8 := '\U{2577}', 9 := '\U{2510}', 10 := '\U{250C}', 11 := '\U{252C}',
    12 := '\U{2502}', 13 := '\U{2524}', 14 := '\U{251C}', 15 := '\U{253C}']

  /** The line segments leaving a corner, up, down, left and right. */
  datatype Arms = Arms(up: bool, down: bool, left: bool, right: bool)

  /** What each box-drawing glyph draws, read off the glyph itself. */
  function GlyphArms(ch: char): Option<Arms> {
    if ch == ' ' then Some(Arms(false, false, false, false))
    else if ch == '\U{2574}' then Some(Arms(false, false, true, false))
    else if ch == '\U{2576}' then Some(Arms(false, false, false, true))
    else if ch == '\U{2500}' then Some(Arms(false, false, true, true))
    else if ch == '\U{2575}' then Some(Arms(true, false, false, false))
    else if ch == '\U{2518}' then Some(Arms(true, false, true, false))
    else if ch == '\U{2514}' then Some(Arms(true, false, false, true))
    else if ch == '\U{2534}' then Some(Arms(true, false, true, true))
    else if ch == '\U{2577}' then Some(Arms(false, true, false, false))
    else if ch == '\U{2510}' then Some(Arms(false, true, true, false))
    else if ch == '\U{250C}' then Some(Arms(false, true, false, true))
    else if ch == '\U{252C}' then Some(Arms(false, true, true, true))
    else if ch == '\U{2502}' then Some(Arms(true, true, false, false))
    else if ch == '\U{2524}' then Some(Arms(true, true, true, false))
    else if ch == '\U{251C}' then Some(Arms(true, true, false, true))
    else if ch == '\U{253C}' then Some(Arms(true, true, true, true))
    else None
  }

  /** The key under which the table keeps the glyph with the given arms. */
  function DrawKey(a: Arms): nat {
    Pack(a.down, a.up, a.right, a.left)
  }

  /**
   * The table is a bijection between keys and glyphs: the glyph stored under
   * `DrawKey(a)` draws exactly the arms `a` (and, by `CornerTableKeys`, every
   * stored glyph is found again under the key of its own arms).
   */
  lemma CornerTable(a: Arms)
    ensures DrawKey(a) in CORNER && GlyphArms(CORNER[DrawKey(a)]) == Some(a)
  {
    var Arms(u, d, l, r) := a;
    if d {
      if u { CornerTableDown(true, l, r); } else { CornerTableDown(false, l, r); }
    } else {
      if u { CornerTableFlat(true, l, r); } else { CornerTableFlat(false, l, r); }
    }
  }

  lemma CornerTableDown(u: bool, l: bool, r: bool)
    ensures GlyphArms(CORNER[DrawKey(Arms(u, true, l, r))]) == Some(Arms(u, true, l, r))
  {
    var k := DrawKey(Arms(u, true, l, r));
    assert k == 8 + (if u then 4 else 0) + (if r then 2 else 0) + (if l then 1 else 0);
  }

  lemma CornerTableFlat(u: bool, l: bool, r: bool)
    ensures GlyphArms(CORNER[DrawKey(Arms(u, false, l, r))]) == Some(Arms(u, false, l, r))
  {
    var k := DrawKey(Arms(u, false, l, r));
    assert k == (if u then 4 else 0) + (if r then 2 else 0) + (if l then 1 else 0);
  }

  /** Every stored glyph is found again under the key of its own arms. */
  lemma CornerTableKeys(k: nat)
    requires k in CORNER
    ensures GlyphArms(CORNER[k]).Some? && DrawKey(GlyphArms(CORNER[k]).value) == k
  {
    assert k < 16;
  }

  /** The glyph for a key, coloured unless it is the blank (key 0). */
  function Glyph(key: nat, colour: string): (r: string)
    requires key in CORNER
    ensures r == " " <==> key == 0
  {
    var ch := CORNER[key];
    if ch == ' ' then " " else Colour([ch], colour)
  }

  /** The flags the source computes, under its own names `arm_n`, `arm_e`, `arm_s`, `arm_w`. */
  datatype KeyFlags = KeyFlags(n: bool, e: bool, s: bool, w: bool)

  /** `arm_n`, `arm_s`, `arm_w`, `arm_e` as the source computes them. */
  function FlagsAsWritten(g: Grid, cx: int, cy: int): KeyFlags
    requires Rect(g)
  {
    KeyFlags(
      n := Has(g, cx - 1, cy - 1, S) || Has(g, cx, cy - 1, S),
      e := Has(g, cx, cy - 1, W) || Has(g, cx, cy, W),
      s := Has(g, cx - 1, cy, N) || Has(g, cx, cy, N),
      w := Has(g, cx - 1, cy - 1, E) || Has(g, cx - 1, cy, E))
  }

  /** The source's key `n << 3 | e << 2 | s << 1 | w`; it always names a table entry. */
  function KeyAsWritten(g: Grid, cx: int, cy: int): (k: nat)
    requires Rect(g)
    ensures k < 16 && k in CORNER
  {
    var f := FlagsAsWritten(g, cx, cy);
    Pack(f.n, f.e, f.s, f.w)
  }

  /**
   * `_corner_char` as written. It is the bare blank exactly when no flag is set,
   * and, because the table's bits read down, up, right, left while the key packs
   * `arm_n`, `arm_e`, `arm_s`, `arm_w`, the glyph it draws has a down arm for
   * `arm_n`, an up arm for `arm_e`, a right arm for `arm_s` and a left arm for `arm_w`.
   */
  function CornerCharAsWritten(g: Grid, cx: int, cy: int, colour: string): (r: string)
    requires Rect(g)
    ensures var f := FlagsAsWritten(g, cx, cy);
      r == " " <==> !f.n && !f.e && !f.s && !f.w
    ensures var f := FlagsAsWritten(g, cx, cy);
      GlyphArms(CORNER[KeyAsWritten(g, cx, cy)]) == Some(Arms(up := f.e, down := f.n, left := f.w, right := f.s))
  {
    var f := FlagsAsWritten(g, cx, cy);
    CornerTable(Arms(up := f.e, down := f.n, left := f.w, right := f.s));
    Glyph(KeyAsWritten(g, cx, cy), colour)
  }

  /** Off the grid `has` is false, so the flags facing outward are clear on the border corners. */
  lemma FlagsAtBorder(g: Grid, cx: int, cy: int)
    requires Rect(g)
    ensures cx == 0 ==> !FlagsAsWritten(g, cx, cy).w
    ensures cy == 0 ==> !FlagsAsWritten(g, cx, cy).n
    ensures cx == |g[0]| ==> !FlagsAsWritten(g, cx, cy).e
    ensures cy == |g| ==> !FlagsAsWritten(g, cx, cy).s
  {
  }

  /**
   * The wall segments that meet at corner (cx, cy): the segment above is the wall
   * between the two cells above, the one to the left the wall between the two
   * cells on the left, and so on.
   */
  function Segments(g: Grid, cx: int, cy: int): Arms
    requires Rect(g)
  {
    Arms(
      up := Has(g, cx - 1, cy - 1, E) || Has(g, cx, cy - 1, W),
      down := Has(g, cx - 1, cy, E) || Has(g, cx, cy, W),
      left := Has(g, cx - 1, cy - 1, S) || Has(g, cx - 1, cy, N),
      right := Has(g, cx, cy - 1, S) || Has(g, cx, cy, N))
  }

  function CornerKey(g: Grid, cx: int, cy: int): (k: nat)
    requires Rect(g)
    ensures k < 16 && k in CORNER
  {
    DrawKey(Segments(g, cx, cy))
  }

  /** The corrected `_corner_char`: the glyph whose arms are the segments meeting at the corner. */
  function CornerChar(g: Grid, cx: int, cy: int, colour: string): string
    requires Rect(g)
  {
    Glyph(CornerKey(g, cx, cy), colour)
  }

  /** The corrected corner draws exactly the segments that meet there, and a blank where none do. */
  lemma CornerDraws(g: Grid, cx: int, cy: int, colour: string)
    requires Rect(g)
    ensures GlyphArms(CORNER[CornerKey(g, cx, cy)]) == Some(Segments(g, cx, cy))
    ensures CornerChar(g, cx, cy, colour) == " " <==> Segments(g, cx, cy) == Arms(false, false, false, false)
  {
    CornerTable(Segments(g, cx, cy));
  }

  /** No segment leaves the drawing: the arms pointing out of the grid are absent. */
  lemma SegmentsAtBorder(g: Grid, cx: int, cy: int)
    requires Rect(g)
    ensures cx <= 0 ==> !Segments(g, cx, cy).left
    ensures cy <= 0 ==> !Segments(g, cx, cy).up
    ensures cx >= |g[0]| ==> !Segments(g, cx, cy).right
    ensures cy >= |g| ==> !Segments(g, cx, cy).down
  {
  }

  /**
   * On a grid whose neighbours agree about their shared walls, each arm of the
   * corrected corner is present exactly when the renderer draws a wall piece next
   * to the corner on that side: the top segment of the cell at the corner's
   * lower right (or, on the bottom line, the bottom segment of the last row),
   * and the left wall of the cell at the corner's lower right (or, in the last
   * column, the right wall of the last cell).
   */
  lemma CornerMeetsWalls(g: Grid, cx: int, cy: int)
    requires Rect(g) && Generator.Mirrored(g, |g[0]|, |g|)
    requires 0 <= cx <= |g[0]| && 0 <= cy <= |g|
    ensures var w, h := |g[0]|, |g|;
      Segments(g, cx, cy).right <==> (cx < w && if cy < h then Has(g, cx, cy, N) else Has(g, cx, h - 1, S))
    ensures var w, h := |g[0]|, |g|;
      Segments(g, cx, cy).left <==> (cx > 0 && if cy < h then Has(g, cx - 1, cy, N) else Has(g, cx - 1, h - 1, S))
    ensures var w, h := |g[0]|, |g|;
      Segments(g, cx, cy).down <==> (cy < h && if cx < w then Has(g, cx, cy, W) else Has(g, w - 1, cy, E))
    ensures var w, h := |g[0]|, |g|;
      Segments(g, cx, cy).up <==> (cy > 0 && if cx < w then Has(g, cx, cy - 1, W) else Has(g, w - 1, cy - 1, E))
  {
    var w, h := |g[0]|, |g|;
    if 0 < cy < h && cx < w {
      assert Step((cx, cy - 1), S) == (cx, cy);
    }
    if 0 < cy < h && 0 < cx {
      assert Step((cx - 1, cy - 1), S) == (cx - 1, cy);
    }
    if 0 < cx < w && cy < h {
      assert Step((cx - 1, cy), E) == (cx, cy);
    }
    if 0 < cx < w && 0 < cy {
      assert Step((cx - 1, cy - 1), E) == (cx, cy - 1);
    }
  }

  /** The grid of the finding below: two rows, each an open passage between two cells. */
  const TWO_PASSAGES: Grid := [[13, 7], [13, 7]]

  /**
   * As written, the straight wall through the middle corner of `TWO_PASSAGES`
   * is drawn as a down-and-right corner; the corrected corner draws a straight line.
   */
  lemma CornerAsWrittenMisdraws(colour: string)
    ensures Rect(TWO_PASSAGES)
    ensures Segments(TWO_PASSAGES, 1, 1) == Arms(false, false, true, true)
    ensures CornerCharAsWritten(TWO_PASSAGES, 1, 1, colour) == Colour("\U{250C}", colour)
    ensures GlyphArms('\U{250C}') == Some(Arms(false, true, false, true))
    ensures CornerChar(TWO_PASSAGES, 1, 1, colour) == Colour("\U{2500}", colour)
  {
    var g := TWO_PASSAGES;
    assert Rect(g);
    assert At(g, (0, 0)) == 13 && At(g, (1, 0)) == 7 && At(g, (0, 1)) == 13 && At(g, (1, 1)) == 7;
    assert FlagsAsWritten(g, 1, 1) == KeyFlags(true, false, true, false);
    assert KeyAsWritten(g, 1, 1) == 10;
    assert CornerKey(g, 1, 1) == 3;
  }

  /**
   * As written, the top-left corner of `TWO_PASSAGES` is drawn as an up-and-right
   * corner; the corrected corner draws it down-and-right.
   */
  lemma OuterCornerAsWrittenMisdraws(colour: string)
    ensures Rect(TWO_PASSAGES)
    ensures Segments(TWO_PASSAGES, 0, 0) == Arms(false, true, false, true)
    ensures CornerCharAsWritten(TWO_PASSAGES, 0, 0, colour) == Colour("\U{2514}", colour)
    ensures CornerChar(TWO_PASSAGES, 0, 0, colour) == Colour("\U{250C}", colour)
  {
    var g := TWO_PASSAGES;
    assert Rect(g);
    assert At(g, (0, 0)) == 13;
    assert FlagsAsWritten(g, 0, 0) == KeyFlags(false, true, true, false);
    assert KeyAsWritten(g, 0, 0) == 6;
    assert CornerKey(g, 0, 0) == 10;
  }

  /*
   * `render_maze`.
   */

  /** Which corner function draws a frame: `_corner_char` as written, or the corrected one. */
  datatype CornerStyle = AsWritten | Corrected

  function Corner(style: CornerStyle, g: Grid, cx: int, cy: int, colour: string): string
    requires Rect(g)
  {
    match style
    case AsWritten => CornerCharAsWritten(g, cx, cy, colour)
    case Corrected => CornerChar(g, cx, cy, colour)
  }

  const ENTRY_MARK: string := Colour("\U{25B6}\U{25B6}", BRIGHT_GREEN)
  const EXIT_MARK: string := Colour("\U{2605}\U{2605}", BRIGHT_RED)
  const PATH_MARK: string := Colour("\U{00B7}\U{00B7}", BRIGHT_CYAN)
  const PATTERN_MARK: string := Colour("\U{2591}\U{2591}", BRIGHT_YELLOW)

  /** A horizontal wall piece: two box-drawing dashes when the wall toward `d` is there. */
  function HSeg(m: Mask, d: Dir, colour: string): string {
    if HasWall(m, d) then Colour("\U{2500}\U{2500}", colour) else "  "
  }

  /** A vertical wall piece: one box-drawing bar when the wall toward `d` is there. */
  function VSeg(m: Mask, d: Dir, colour: string): string {
    if HasWall(m, d) then Colour("\U{2502}", colour) else " "
  }

  /** The two characters inside a cell. */
  function Interior(c: Cell, entry: Cell, exit: Cell, showPath: bool, shown: set<Cell>, pat: set<Cell>): string {
    if c == entry then ENTRY_MARK
    else if c == exit then EXIT_MARK
    else if showPath && c in shown then PATH_MARK
    else if c in pat then PATTERN_MARK
    else "  "
  }

  /** The cells marked as path: the trail of the path when it is shown and not empty, else none. */
  function Shown(path: Option<string>, showPath: bool, entry: Cell): set<Cell> {
    if showPath && path.Some? && path.value != [] then Trail(path.value, entry) else {}
  }

  lemma MarksDiffer()
    ensures ENTRY_MARK != EXIT_MARK && ENTRY_MARK != PATH_MARK && ENTRY_MARK != PATTERN_MARK && ENTRY_MARK != "  "
    ensures EXIT_MARK != PATH_MARK && EXIT_MARK != PATTERN_MARK && EXIT_MARK != "  "
    ensures PATH_MARK != PATTERN_MARK && PATH_MARK != "  " && PATTERN_MARK != "  "
  {
    assert ENTRY_MARK[3] == '2' && EXIT_MARK[3] == '1' && PATH_MARK[3] == '6' && PATTERN_MARK[3] == '3';
  }

  /**
   * The interior of a cell, by priority: the entry mark on the entry, the exit
   * mark on the exit, the path mark on the other cells some prefix of a shown,
   * non-empty path reaches, then the pattern mark, else blank.
   */
  lemma InteriorMarks(c: Cell, entry: Cell, exit: Cell, path: Option<string>, showPath: bool, pat: set<Cell>)
    ensures var r := Interior(c, entry, exit, showPath, Shown(path, showPath, entry), pat);
      && (r == ENTRY_MARK <==> c == entry)
      && (r == EXIT_MARK <==> c != entry && c == exit)
      && (r == PATH_MARK <==>
            c != entry && c != exit && showPath && path.Some? && path.value != [] &&
            exists k {:trigger EndOf(entry, path.value[..k])} ::
              0 <= k <= |path.value| && EndOf(entry, path.value[..k]) == c)
      && (r == PATTERN_MARK <==> c != entry && c != exit && c !in Shown(path, showPath, entry) && c in pat)
  {
    MarksDiffer();
    if path.Some? {
      TrailMembers(path.value, entry, c);
    }
  }

  /** One line's corner and top-wall pieces for the first `k` cells of row `y`. */
  function TopRow(style: CornerStyle, g: Grid, y: int, colour: string, k: int): string
    requires Rect(g) && 0 <= y < |g| && 0 <= k <= |g[0]|
    decreases k
  {
    if k == 0 then ""
    else TopRow(style, g, y, colour, k - 1) + Corner(style, g, k - 1, y, colour) + HSeg(At(g, (k - 1, y)), N, colour)
  }

  /** The line above row `y`: a corner, a top wall piece per cell, and the closing corner. */
  function TopLine(style: CornerStyle, g: Grid, y: int, colour: string): string
    requires Rect(g) && 0 <= y < |g|
  {
    TopRow(style, g, y, colour, |g[0]|) + Corner(style, g, |g[0]|, y, colour)
  }

  /** The left wall piece and the interior of the first `k` cells of row `y`. */
  function MidRow(g: Grid, y: int, entry: Cell, exit: Cell, showPath: bool, shown: set<Cell>, pat: set<Cell>,
                  colour: string, k: int): string
    requires Rect(g) && 0 <= y < |g| && 0 <= k <= |g[0]|
    decreases k
  {
    if k == 0 then ""
    else
      MidRow(g, y, entry, exit, showPath, shown, pat, colour, k - 1)
      + VSeg(At(g, (k - 1, y)), W, colour) + Interior((k - 1, y), entry, exit, showPath, shown, pat)
  }

  /** The line through row `y`: left wall and interior per cell, then the last cell's right wall. */
  function MidLine(g: Grid, y: int, entry: Cell, exit: Cell, showPath: bool, shown: set<Cell>, pat: set<Cell>,
                   colour: string): string
    requires Rect(g) && |g[0]| >= 1 && 0 <= y < |g|
  {
    MidRow(g, y, entry, exit, showPath, shown, pat, colour, |g[0]|) + VSeg(At(g, (|g[0]| - 1, y)), E, colour)
  }

  /** The bottom line's corner and bottom-wall pieces for the first `k` cells of the last row. */
  function BotRow(style: CornerStyle, g: Grid, colour: string, k: int): string
    requires Rect(g) && 0 <= k <= |g[0]|
    decreases k
  {
    if k == 0 then ""
    else
      BotRow(style, g, colour, k - 1) + Corner(style, g, k - 1, |g|, colour)
      + HSeg(At(g, (k - 1, |g| - 1)), S, colour)
  }

  function BotLine(style: CornerStyle, g: Grid, colour: string): string
    requires Rect(g)
  {
    BotRow(style, g, colour, |g[0]|) + Corner(style, g, |g[0]|, |g|, colour)
  }

  /** `top(0), mid(0), top(1), mid(1), ...`: two lines for each of the first `k` rows. */
  function Pairs<T>(k: nat, top: int -> T, mid: int -> T): (r: seq<T>)
    ensures |r| == 2 * k
  {
    if k == 0 then [] else Pairs(k - 1, top, mid) + [top(k - 1), mid(k - 1)]
  }

  /** Places `2y` and `2y + 1` hold row `y`'s two lines. */
  lemma {:induction false} PairsAt<T>(k: nat, top: int -> T, mid: int -> T, y: int)
    requires 0 <= y < k
    ensures Pairs(k, top, mid)[2 * y] == top(y) && Pairs(k, top, mid)[2 * y + 1] == mid(y)
  {
    if y < k - 1 {
      PairsAt(k - 1, top, mid, y);
    }
  }

  /** The line above each row (blank outside the grid). */
  function TopLines(style: CornerStyle, g: Grid, colour: string): int -> string
    requires Rect(g)
  {
    y => if 0 <= y < |g| then TopLine(style, g, y, colour) else ""
  }

  /** The line through each row (blank outside the grid). */
  function MidLines(g: Grid, entry: Cell, exit: Cell, showPath: bool, shown: set<Cell>, pat: set<Cell>,
                    colour: string): int -> string
    requires Rect(g) && |g[0]| >= 1
  {
    y => if 0 <= y < |g| then MidLine(g, y, entry, exit, showPath, shown, pat, colour) else ""
  }

  /**
   * The lines of one frame: two per row, then the bottom line. `render_maze`
   * draws `Frame(AsWritten, ...)`; `Frame(Corrected, ...)` is the frame it evidently
   * means to draw.
   */
  function Frame(style: CornerStyle, g: Grid, entry: Cell, exit: Cell, path: Option<string>, showPath: bool,
                 colour: string, pat: set<Cell>): seq<string>
    requires Rect(g) && |g[0]| >= 1
  {
    Pairs(|g|, TopLines(style, g, colour),
          MidLines(g, entry, exit, showPath, Shown(path, showPath, entry), pat, colour))
      + [BotLine(style, g, colour)]
  }

  /** A frame has two lines per row, the line above the row first, and the bottom line last. */
  lemma FrameLayout(style: CornerStyle, g: Grid, entry: Cell, exit: Cell, path: Option<string>, showPath: bool,
                    colour: string, pat: set<Cell>)
    requires Rect(g) && |g[0]| >= 1
    ensures var f := Frame(style, g, entry, exit, path, showPath, colour, pat);
      && |f| == 2 * |g| + 1
      && (forall y {:trigger TopLine(style, g, y, colour)} :: 0 <= y < |g| ==>
            f[2 * y] == TopLine(style, g, y, colour)
            && f[2 * y + 1] == MidLine(g, y, entry, exit, showPath, Shown(path, showPath, entry), pat, colour))
      && f[2 * |g|] == BotLine(style, g, colour)
  {
    var top := TopLines(style, g, colour);
    var mid := MidLines(g, entry, exit, showPath, Shown(path, showPath, entry), pat, colour);
    var f := Frame(style, g, entry, exit, path, showPath, colour, pat);
    assert f == Pairs(|g|, top, mid) + [BotLine(style, g, colour)];
    forall y | 0 <= y < |g|
      ensures f[2 * y] == TopLine(style, g, y, colour)
      ensures f[2 * y + 1] == MidLine(g, y, entry, exit, showPath, Shown(path, showPath, entry), pat, colour)
    {
      PairsAt(|g|, top, mid, y);
      assert f[2 * y] == top(y) && f[2 * y + 1] == mid(y);
    }
  }

  /** Both corner functions draw the left corner of the second row of `TWO_PASSAGES` alike. */
  lemma LeftCornerAgrees(colour: string)
    ensures Rect(TWO_PASSAGES)
    ensures Corner(AsWritten, TWO_PASSAGES, 0, 1, colour) == Corner(Corrected, TWO_PASSAGES, 0, 1, colour)
  {
    var g := TWO_PASSAGES;
    assert Rect(g);
    assert At(g, (0, 0)) == 13 && At(g, (0, 1)) == 13;
    assert FlagsAsWritten(g, 0, 1) == KeyFlags(true, true, true, false);
    assert KeyAsWritten(g, 0, 1) == 14 && CornerKey(g, 0, 1) == 14;
  }

  /** On `TWO_PASSAGES` the line above the second row differs at the middle corner. */
  lemma TopLineAsWrittenDiffers(colour: string)
    ensures Rect(TWO_PASSAGES)
    ensures TopLine(AsWritten, TWO_PASSAGES, 1, colour) != TopLine(Corrected, TWO_PASSAGES, 1, colour)
  {
    var g := TWO_PASSAGES;
    CornerAsWrittenMisdraws(colour);
    LeftCornerAgrees(colour);
    var x := TopRow(AsWritten, g, 1, colour, 1);
    assert x == TopRow(Corrected, g, 1, colour, 1);
    var h := HSeg(At(g, (1, 1)), N, colour);
    var ca, cb := Colour("\U{250C}", colour), Colour("\U{2500}", colour);
    var a := x + ca + h + Corner(AsWritten, g, 2, 1, colour);
    var b := x + cb + h + Corner(Corrected, g, 2, 1, colour);
    assert TopLine(AsWritten, g, 1, colour) == a;
    assert TopLine(Corrected, g, 1, colour) == b;
    assert a[|x| + |colour|] == ca[|colour|] == '\U{250C}';
    assert b[|x| + |colour|] == cb[|colour|] == '\U{2500}';
  }

  /** On `TWO_PASSAGES` the frame drawn as written is not the corrected frame. */
  lemma FrameAsWrittenDiffers(entry: Cell, exit: Cell, path: Option<string>, showPath: bool, colour: string,
                              pat: set<Cell>)
    ensures Rect(TWO_PASSAGES) && |TWO_PASSAGES[0]| >= 1
    ensures Frame(AsWritten, TWO_PASSAGES, entry, exit, path, showPath, colour, pat)
         != Frame(Corrected, TWO_PASSAGES, entry, exit, path, showPath, colour, pat)
  {
    TopLineAsWrittenDiffers(colour);
    FrameLayout(AsWritten, TWO_PASSAGES, entry, exit, path, showPath, colour, pat);
    FrameLayout(Corrected, TWO_PASSAGES, entry, exit, path, showPath, colour, pat);
  }

  /**
   * `render_maze`, returning the lines it prints: for each row the line of
   * corners and top walls and the line of left walls and interiors, then the
   * bottom line, with the corners `_corner_char` draws as written. An empty
   * first row makes the source fail reading its last cell, hence `|g[0]| >= 1`;
   * a shown path must spell directions.
   */
  method RenderMaze(g: Grid, entry: Cell, exit: Cell, path: Option<string>, showPath: bool, wallColour: string,
                    pat: set<Cell>) returns (lines: seq<string>)
    requires Rect(g) && |g[0]| >= 1
    requires showPath && path.Some? && path.value != [] ==> AllLetters(path.value)
    ensures lines == Frame(AsWritten, g, entry, exit, path, showPath, wallColour, pat)
  {
    var visited: set<Cell> := {};
    if showPath && path.Some? && path.value != [] {
      visited := PathCells(path.value, entry);
    }
    assert visited == Shown(path, showPath, entry);
    lines := RowsOf(g, entry, exit, showPath, visited, pat, wallColour,
                    TopLines(AsWritten, g, wallColour), MidLines(g, entry, exit, showPath, visited, pat, wallColour));
    var bot := BotOf(g, wallColour);
    lines := lines + [bot];
  }

  /** The loop over the rows, two lines each; `tops` and `mids` name the lines row by row. */
  method RowsOf(g: Grid, entry: Cell, exit: Cell, showPath: bool, visited: set<Cell>, pat: set<Cell>,
                wallColour: string, ghost tops: int -> string, ghost mids: int -> string) returns (lines: seq<string>)
    requires Rect(g) && |g[0]| >= 1
    requires forall y {:trigger TopLine(AsWritten, g, y, wallColour)} :: 0 <= y < |g| ==>
      tops(y) == TopLine(AsWritten, g, y, wallColour)
    requires forall y {:trigger MidLine(g, y, entry, exit, showPath, visited, pat, wallColour)} :: 0 <= y < |g| ==>
      mids(y) == MidLine(g, y, entry, exit, showPath, visited, pat, wallColour)
    ensures lines == Pairs(|g|, tops, mids)
  {
    lines := [];
    for y := 0 to |g|
      invariant lines == Pairs(y, tops, mids)
    {
      var top := TopOf(g, y, wallColour);
      var mid := MidOf(g, y, entry, exit, showPath, visited, pat, wallColour);
      lines := lines + [top, mid];
    }
  }

  /** The loop building the line above row `y`, with the corners as written. */
  method TopOf(g: Grid, y: int, wallColour: string) returns (top: string)
    requires Rect(g) && 0 <= y < |g|
    ensures top == TopLine(AsWritten, g, y, wallColour)
  {
    top := "";
    for x := 0 to |g[0]|
      invariant top == TopRow(AsWritten, g, y, wallColour, x)
    {
      top := top + CornerCharAsWritten(g, x, y, wallColour);
      if HasWall(At(g, (x, y)), N) {
        top := top + Colour("\U{2500}\U{2500}", wallColour);
      } else {
        top := top + "  ";
      }
    }
    top := top + CornerCharAsWritten(g, |g[0]|, y, wallColour);
  }

  /** The loop building the line through row `y`. */
  method MidOf(g: Grid, y: int, entry: Cell, exit: Cell, showPath: bool, visited: set<Cell>, pat: set<Cell>,
               wallColour: string) returns (mid: string)
    requires Rect(g) && |g[0]| >= 1 && 0 <= y < |g|
    ensures mid == MidLine(g, y, entry, exit, showPath, visited, pat, wallColour)
  {
    mid := "";
    for x := 0 to |g[0]|
      invariant mid == MidRow(g, y, entry, exit, showPath, visited, pat, wallColour, x)
    {
      if HasWall(At(g, (x, y)), W) {
        mid := mid + Colour("\U{2502}", wallColour);
      } else {
        mid := mid + " ";
      }
      if (x, y) == entry {
        mid := mid + ENTRY_MARK;
      } else if (x, y) == exit {
        mid := mid + EXIT_MARK;
      } else if showPath && (x, y) in visited {
        mid := mid + PATH_MARK;
      } else if (x, y) in pat {
        mid := mid + PATTERN_MARK;
      } else {
        mid := mid + "  ";
      }
    }
    if HasWall(At(g, (|g[0]| - 1, y)), E) {
      mid := mid + Colour("\U{2502}", wallColour);
    } else {
      mid := mid + " ";
    }
  }

  /** The loop building the bottom line, with the corners as written. */
  method BotOf(g: Grid, wallColour: string) returns (bot: string)
    requires Rect(g)
    ensures bot == BotLine(AsWritten, g, wallColour)
  {
    bot := "";
    for x := 0 to |g[0]|
      invariant bot == BotRow(AsWritten, g, wallColour, x)
    {
      bot := bot + CornerCharAsWritten(g, x, |g|, wallColour);
      if HasWall(At(g, (x, |g| - 1)), S) {
        bot := bot + Colour("\U{2500}\U{2500}", wallColour);
      } else {
        bot := bot + "  ";
      }
    }
    bot := bot + CornerCharAsWritten(g, |g[0]|, |g|, wallColour);
  }

  /*
   * `run_display`.
   */

  /** What the menu loop keeps between frames; `regenerations` counts the calls to the callback. */
  datatype View = View(grid: Grid, path: Option<string>, showPath: bool, colourIndex: nat, regenerations: nat)

  /**
   * One menu choice (already stripped): "1" takes a new grid and path from the
   * callback and hides the path, "2" toggles the path, "3" moves to the next wall
   * colour; anything else ("4" is handled by the loop) changes nothing.
   */
  function Next(v: View, choice: string, regen: nat -> (Grid, Option<string>)): (r: View)
    ensures v.colourIndex < |WALL_COLOURS| ==> r.colourIndex < |WALL_COLOURS|
    ensures choice == "1" ==>
      !r.showPath && r.regenerations == v.regenerations + 1
      && (r.grid, r.path) == regen(v.regenerations) && r.colourIndex == v.colourIndex
    ensures choice == "2" ==> r == v.(showPath := !v.showPath)
    ensures choice != "1" && choice != "2" && choice != "3" ==> r == v
  {
    if choice == "1" then
      var (g, p) := regen(v.regenerations);
      View(g, p, false, v.colourIndex, v.regenerations + 1)
    else if choice == "2" then v.(showPath := !v.showPath)
    else if choice == "3" then v.(colourIndex := (v.colourIndex + 1) % |WALL_COLOURS|)
    else v
  }

  /**
   * The views the loop draws, one per frame: the current view, then, unless the
   * input is exhausted (end of file) or the choice is "4", the views after it.
   */
  function Session(v: View, choices: seq<string>, regen: nat -> (Grid, Option<string>)): (r: seq<View>)
    ensures 1 <= |r| <= |choices| + 1 && r[0] == v
    decreases |choices|
  {
    if choices == [] || Strip(choices[0]) == "4" then [v]
    else [v] + Session(Next(v, Strip(choices[0]), regen), choices[1..], regen)
  }

  /** Unfolding `Session` at position `i` of the input. */
  lemma SessionAt(v: View, choices: seq<string>, regen: nat -> (Grid, Option<string>), i: nat)
    requires i <= |choices|
    ensures i == |choices| ==> Session(v, choices[i..], regen) == [v]
    ensures i < |choices| && Strip(choices[i]) == "4" ==> Session(v, choices[i..], regen) == [v]
    ensures i < |choices| && Strip(choices[i]) != "4" ==>
      Session(v, choices[i..], regen) == [v] + Session(Next(v, Strip(choices[i]), regen), choices[i + 1..], regen)
  {
    if i < |choices| {
      assert choices[i..][0] == choices[i] && choices[i..][1..] == choices[i + 1..];
    }
  }

  /**
   * `run_display`: draws a frame, reads a choice, acts on it, until "4" or the end
   * of input. Returns the view behind every frame drawn; `RenderMaze` gives each
   * frame's lines, with wall colour `WALL_COLOURS[colourIndex]`.
   */
  method RunDisplay(grid: Grid, path: Option<string>, choices: seq<string>, regen: nat -> (Grid, Option<string>))
    returns (views: seq<View>)
    ensures views == Session(View(grid, path, false, 0, 0), choices, regen)
  {
    var showPath := false;
    var colourIndex: nat := 0;
    var currentGrid, currentPath := grid, path;
    var calls: nat := 0;
    views := [];
    var i := 0;
    while true
      invariant 0 <= i <= |choices|
      invariant Session(View(grid, path, false, 0, 0), choices, regen)
        == views + Session(View(currentGrid, currentPath, showPath, colourIndex, calls), choices[i..], regen)
      decreases |choices| - i
    {
      var v := View(currentGrid, currentPath, showPath, colourIndex, calls);
      ghost var before := views;
      views := views + [v];
      SessionAt(v, choices, regen, i);
      if i == |choices| {
        return;
      }
      var choice := Strip(choices[i]);
      i := i + 1;
      if choice == "1" {
        currentGrid, currentPath := regen(calls).0, regen(calls).1;
        calls := calls + 1;
        showPath := false;
      } else if choice == "2" {
        showPath := !showPath;
      } else if choice == "3" {
        colourIndex := (colourIndex + 1) % |WALL_COLOURS|;
      } else if choice == "4" {
        return;
      }
      ghost var rest := Session(Next(v, choice, regen), choices[i..], regen);
      assert View(currentGrid, currentPath, showPath, colourIndex, calls) == Next(v, choice, regen);
      assert before + ([v] + rest) == views + rest;
    }
  }

  /** Starting from a valid colour, every frame's colour index selects one of the seven colours. */
  lemma {:induction false} SessionColours(v: View, choices: seq<string>, regen: nat -> (Grid, Option<string>))
    requires v.colourIndex < |WALL_COLOURS|
    ensures forall i {:trigger Session(v, choices, regen)[i]} :: 0 <= i < |Session(v, choices, regen)| ==>
      Session(v, choices, regen)[i].colourIndex < |WALL_COLOURS|
    decreases |choices|
  {
    if choices != [] && Strip(choices[0]) != "4" {
      SessionColours(Next(v, Strip(choices[0]), regen), choices[1..], regen);
    }
  }

  /** The loop stops at the first "4": no frame is drawn after it. */
  lemma {:induction false} QuitStops(v: View, choices: seq<string>, regen: nat -> (Grid, Option<string>), i: nat)
    requires i < |choices| && Strip(choices[i]) == "4"
    ensures |Session(v, choices, regen)| <= i + 1
    decreases i
  {
    if i > 0 && Strip(choices[0]) != "4" {
      QuitStops(Next(v, Strip(choices[0]), regen), choices[1..], regen, i - 1);
    }
  }

  /** Without a "4", one frame is drawn per choice and one before the first. */
  lemma {:induction false} NoQuitFrames(v: View, choices: seq<string>, regen: nat -> (Grid, Option<string>))
    requires forall i {:trigger choices[i]} :: 0 <= i < |choices| ==> Strip(choices[i]) != "4"
    ensures |Session(v, choices, regen)| == |choices| + 1
    decreases |choices|
  {
    if choices != [] {
      assert Strip(choices[0]) != "4";
      NoQuitFrames(Next(v, Strip(choices[0]), regen), choices[1..], regen);
    }
  }

  /** Choosing "2" twice shows the maze as before. */
  lemma ToggleTwice(v: View, regen: nat -> (Grid, Option<string>))
    ensures Next(Next(v, "2", regen), "2", regen) == v
  {
  }

  /** `n` choices of the same kind in a row. */
  function Repeated(v: View, choice: string, n: nat, regen: nat -> (Grid, Option<string>)): View
  {
    if n == 0 then v else Next(Repeated(v, choice, n - 1, regen), choice, regen)
  }

  lemma {:induction false} ColourSteps(v: View, n: nat, regen: nat -> (Grid, Option<string>))
    requires v.colourIndex < |WALL_COLOURS|
    ensures Repeated(v, "3", n, regen) == v.(colourIndex := (v.colourIndex + n) % |WALL_COLOURS|)
  {
    if n > 0 {
      ColourSteps(v, n - 1, regen);
      var w := Repeated(v, "3", n - 1, regen);
      assert w.colourIndex == (v.colourIndex + n - 1) % |WALL_COLOURS|;
      assert Repeated(v, "3", n, regen) == w.(colourIndex := (w.colourIndex + 1) % |WALL_COLOURS|);
      ColourSucc(v.colourIndex + n - 1);
    }
  }

  lemma ColourSucc(a: nat)
    ensures (a % |WALL_COLOURS| + 1) % |WALL_COLOURS| == (a + 1) % |WALL_COLOURS|
  {
  }

  /** Seven colour changes come back to the colour one started with. */
  lemma ColourCycle(v: View, regen: nat -> (Grid, Option<string>))
    requires v.colourIndex < |WALL_COLOURS|
    ensures Repeated(v, "3", |WALL_COLOURS|, regen) == v
    ensures forall n :: 0 < n < |WALL_COLOURS| ==> Repeated(v, "3", n, regen) != v
  {
    ColourSteps(v, |WALL_COLOURS|, regen);
    assert (v.colourIndex + |WALL_COLOURS|) % |WALL_COLOURS| == v.colourIndex;
    forall n | 0 < n < |WALL_COLOURS|
      ensures Repeated(v, "3", n, regen) != v
    {
      ColourSteps(v, n, regen);
      ColourShift(v.colourIndex, n);
      assert Repeated(v, "3", n, regen).colourIndex != v.colourIndex;
    }
  }

  lemma ColourShift(a: nat, n: nat)
    requires a < |WALL_COLOURS| && 0 < n < |WALL_COLOURS|
    ensures (a + n) % |WALL_COLOURS| != a
  {
  }
}

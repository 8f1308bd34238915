# A-Maze-ing, modelled in Dafny

A-Maze-ing generates rectangular mazes, solves them, writes them to a text file
and draws them in a terminal. A maze is a grid of cells. Each cell holds a 4-bit
wall mask: N = 1, E = 2, S = 4, W = 8, and a set bit means a wall. This project
models the core of the program and proves properties of it:

- **Walls**, **Grids**, **Queues**: walls and directions as `bv4` masks. Cells are
  `(x, y)` pairs. A path is a string of `N`/`E`/`S`/`W` letters, replayed from a
  cell. Walks through open walls and the sets of cells they reach.
- **Text**: the Python string operations the core relies on (`strip`, `lower`,
  `split`, `str(int)`, decimal `int()`), with their round trips.
- **Config** (`config.py`): `parse_config` over the lines of the file, and
  `validate_config` with its three error messages in the source's order.
- **Generator** (`generator.py`): the `MazeGenerator` class. Its `generate`
  is the iterative depth-first backtracker from (0, 0), written as a `while`
  loop over the `grid` field. The proof shows the result is a spanning tree:
  - neighbouring cells agree on every shared wall;
  - the outer walls stay closed;
  - exactly `width * height - 1` passages are open;
  - every cell is reachable from (0, 0).

  It also proves the exact number of loop iterations.
- **HexWriter** (`hex_writer.py`):
  - `solve_bfs`, with loop invariants that prove the returned path is a shortest
    open walk, and that `None` means the exit is unreachable;
  - the text that `write_maze_file` writes, proved to parse back to the grid,
    entry, exit and path.
- **Maze** and **Pathfinding** (`maze_data.py`, `pathfinder.py`): the frozen
  `MazeData` record and the second breadth-first solver, `Pathfinder.solve`,
  modelled as written. It follows a direction when the wall bit is *set*, and it
  does no bounds check. Off the grid, `get_walls` reports all four walls.
- **Display** (`display.py`):
  - `_path_cells`;
  - the `CORNER` glyph table and `_corner_char`;
  - `render_maze`, as a method that builds the frame's lines with the corners
    that `_corner_char` draws as written. A second frame, built from the
    corrected corner, is the picture the code evidently means to draw;
  - the menu state machine of `run_display`.

The random choice in `generate` is a parameter `pick: nat -> nat`. The k-th choice
takes index `pick(k) % |candidates|`, which stands for any sequence of choices
`random.choice` could make. The regenerate callback of `run_display` is a
parameter too. The terminal input is a sequence of lines. The file contents are a
sequence of lines or a string.

## Model

| member | source | states |
|---|---|---|
| Walls.DirOf | src/display.py:102 | Reading a direction letter is the inverse of writing one; any other character is not a direction |
| Walls.Clear | src/mazegen/generator.py:61-62 | `mask & ~wall` removes exactly the wall toward `d` and keeps the other three |
| Walls.AllWallsClosed | src/mazegen/generator.py:10 | The mask 15 has a wall on every side |
| Walls.StepBack | src/mazegen/generator.py:12-17 | Stepping toward a direction and then toward its opposite returns to the start, and the opposite of the opposite is the direction itself |
| Walls.EndOfAppend | src/display.py:103-107 | Replaying `p + q` from a cell equals replaying `q` from where `p` ends |
| Grids.OpenWalkSnoc | src/solver/hex_writer.py:59-69 | Extending a walk through open walls by one open side gives an open walk that ends one step further |
| Grids.OpenWalkInGrid | src/solver/hex_writer.py:66 | A walk through open walls that is bounds-checked at every step stays inside the grid |
| Grids.ClosedSetContainsWalks | src/solver/hex_writer.py:53-69 | A set of cells closed under open moves contains the end of every open walk from its members |
| Grids.FewerWallsTrans | src/mazegen/generator.py:61-62 | Only removing walls is transitive |
| Grids.OpenWalkMonotone | src/mazegen/generator.py:61-62 | A walk that was open stays open once more walls are removed |
| Grids.AllCellsCard | src/mazegen/generator.py:25 | A `width` x `height` grid has exactly `width * height` cells |
| Grids.ClosedUnderNeighboursIsAll | src/mazegen/generator.py:42-68 | A set holding (0, 0) and closed under in-grid neighbours holds every cell |
| Queues.CellsAppend | src/solver/hex_writer.py:69 | The cells of a concatenated queue are the union of the two queues' cells |
| Text.LStripSuffix | src/mazegen/utils/config.py:20 | The left strip is a suffix of the input, and everything it drops is whitespace |
| Text.RStripPrefix | src/mazegen/utils/config.py:20 | The right strip is a prefix of the input, and everything it drops is whitespace |
| Text.Strip | src/mazegen/utils/config.py:20 | `strip` returns a string, no longer than the input, with no whitespace at either end |
| Text.StripMiddle | src/mazegen/utils/config.py:20 | `strip` returns the contiguous slice of the input left after removing exactly the leading and trailing whitespace |
| Text.StripTrimmed | src/mazegen/utils/config.py:29-30 | Stripping an already trimmed string changes nothing |
| Text.StripAllSpace | src/mazegen/utils/config.py:20-22 | A line of whitespace alone strips to the empty string, so it is skipped |
| Text.Lower | src/mazegen/utils/config.py:99 | `lower` maps each character through the ASCII lower-casing and keeps the length |
| Text.LowerTrue | src/mazegen/utils/config.py:98-99 | The default "True" lower-cases to "true" |
| Text.Find | src/mazegen/utils/config.py:25-28 | Finds the first occurrence of a character; `None` exactly when the character is absent |
| Text.Split | src/mazegen/utils/config.py:72-73 | `split` returns at least one piece; no piece holds the separator; joining the pieces with it gives back the input |
| Text.SplitJoin | src/mazegen/utils/config.py:72-73 | Splitting a join of pieces free of the separator gives back the pieces |
| Text.SplitOnce | src/mazegen/utils/config.py:28 | A string with one separator splits into the part before it and the part after it |
| Text.NatToString | src/solver/hex_writer.py:119-122 | A natural prints as one or more digits, with no leading zero |
| Text.IntToString | src/solver/hex_writer.py:119-122 | An integer prints as digits, led by '-' exactly when it is negative |
| Text.ParseInt | src/mazegen/utils/config.py:57-58 | A blank string is not a number |
| Text.DigitsOfNat | src/mazegen/utils/config.py:57-58 | The digits printed for a natural read back as that natural |
| Text.ParseSignedToString | src/mazegen/utils/config.py:57-58 | A printed integer, sign included, reads back as itself |
| Text.IntToStringTrimmed | src/mazegen/utils/config.py:80-81 | A printed integer has no surrounding whitespace |
| Text.ParseIntToString | src/mazegen/utils/config.py:57-58 | `int(str(n)) == n` for every integer |
| Config.Definition | src/mazegen/utils/config.py:20-30 | A line defines a key exactly when it is neither blank, nor a comment, nor missing '=' |
| Config.DefinitionAtFirstEquals | src/mazegen/utils/config.py:28-30 | The key is the stripped text before the first '=', and the value the stripped text after it, so the value may itself hold '=' |
| Config.ParseConfig | src/mazegen/utils/config.py:14-33 | The line-by-line loop computes exactly the parse of the whole file |
| Config.FailureSticks | src/mazegen/utils/config.py:25-26 | Once a line has raised the error, no later line changes the outcome |
| Config.ParseFails | src/mazegen/utils/config.py:22-26 | Parsing fails exactly when some line is malformed. The error names the first malformed line, stripped |
| Config.ParseLastWins | src/mazegen/utils/config.py:29-31 | A key is in the result exactly when some line defines it. Its value is the last such definition |
| Config.ParseWritten | src/mazegen/utils/config.py:18-31 | One `KEY=VALUE` line parses to the map holding that one pair |
| Config.FirstMissing | src/mazegen/utils/config.py:49-53 | Reports nothing exactly when all four mandatory keys are present. Otherwise it reports the first missing key in the order WIDTH, HEIGHT, ENTRY, EXIT |
| Config.Dimensions | src/mazegen/utils/config.py:55-64 | Succeeds exactly when both sizes are integers and at least 3. Every failure gets one and the same message |
| Config.Coordinate | src/mazegen/utils/config.py:72-81 | A coordinate is exactly two comma-separated integers |
| Config.Coordinates | src/mazegen/utils/config.py:69-95 | Both points parse, both lie inside the maze, and they differ |
| Config.Clean | src/mazegen/utils/config.py:97-102 | The validated settings hold exactly the six keys, and no SEED |
| Config.ValidateConfig | src/mazegen/utils/config.py:38-102 | Reports the first missing key, then bad dimensions, then bad coordinates, each with its own message; otherwise the converted settings |
| Config.CheckDimensions | src/mazegen/utils/config.py:55-64 | The `try` block on the sizes computes `Dimensions` |
| Config.CheckCoordinates | src/mazegen/utils/config.py:69-95 | The `try` block on the points computes `Coordinates` |
| Config.ReadCoordinate | src/mazegen/utils/config.py:72-81 | Splitting on ',' and converting both parts computes `Coordinate` |
| Config.CoordinateRoundTrip | src/mazegen/utils/config.py:72-81 | A point written as `x,y` reads back as itself |
| Config.ValidateWritten | src/mazegen/utils/config.py:49-95 | Settings written from valid sizes and two distinct in-bounds points pass every check and read back as those values |
| Config.CleanDefaults | src/mazegen/utils/config.py:98-100 | Without PERFECT and OUTPUT_FILE the settings are `True` and "maze.txt" |
| Config.CleanPerfect | src/mazegen/utils/config.py:98-99 | PERFECT is true exactly when its text lower-cases to "true" |
| Maze.MazeData.GetWalls | src/solver/maze_data.py:16-23 | The cell's mask inside the bounds, and 15 outside |
| Maze.OffGridAllWalls | src/solver/maze_data.py:19-23 | Off the grid there is a wall toward every direction |
| Maze.RectCovers | src/solver/maze_data.py:7-14 | A rectangular grid of the record's own size can be read at every in-bounds cell |
| Generator.AllWalls | src/mazegen/generator.py:25 | The initial grid is `height` rows of `width` cells, each with all four walls |
| Generator.MazeGenerator.constructor | src/mazegen/generator.py:19-25 | The sizes and seed are stored and the grid is all walls |
| Generator.Unvisited | src/mazegen/generator.py:48-55 | A direction is a candidate exactly when its neighbour is inside the grid and not yet visited |
| Generator.CollectUnvisited | src/mazegen/generator.py:46-55 | The neighbour scan, in the order N, E, S, W, builds exactly the candidates |
| Generator.InOpenEdges | src/mazegen/generator.py:61-62 | A passage is open exactly when both its cells are in the grid and the wall of the first toward the second is clear |
| Generator.CarveCells | src/mazegen/generator.py:61-62 | Carving clears one wall in each of the two cells and changes no other cell |
| Generator.CarveBits | src/mazegen/generator.py:61-62 | Carving clears exactly the shared wall, seen from either side |
| Generator.CarvedSymmetric | src/mazegen/generator.py:12-17 | A carved wall, seen from the other cell, is the opposite wall of that cell |
| Generator.MirroredAfterCarve | src/mazegen/generator.py:61-62 | Carving keeps neighbours in agreement about every shared wall |
| Generator.OuterWallsAfterCarve | src/mazegen/generator.py:53 | Carving only between in-grid cells keeps the outer walls closed |
| Generator.FewerWallsAfterCarve | src/mazegen/generator.py:61-62 | Carving only removes walls |
| Generator.EdgesAfterCarve | src/mazegen/generator.py:61-62 | The open passages after a carve are the earlier ones plus the carved one |
| Generator.EdgeToWalledCellClosed | src/mazegen/generator.py:54-55 | A cell with all walls still up has no open passage to it |
| Generator.CarveOpensOneEdge | src/mazegen/generator.py:57-65 | Carving into an unvisited cell adds exactly one new passage |
| Generator.AllWallsFacts | src/mazegen/generator.py:25 | The initial grid agrees on shared walls and has closed outer walls and no passage |
| Generator.Pushed | src/mazegen/generator.py:57-65 | Moving forward keeps the loop invariant, and the new cell was an unvisited cell of the grid |
| Generator.Popped | src/mazegen/generator.py:66-68 | Backtracking at a dead end keeps the loop invariant |
| Generator.Finished | src/mazegen/generator.py:42-70 | With the stack empty, the grid is a spanning tree: `w*h - 1` passages, every cell reachable from (0, 0), made in `w*h - 1` carves and `2*w*h - 1` iterations |
| Generator.MazeGenerator.Advance | src/mazegen/generator.py:43-68 | One loop iteration: carve toward the picked candidate and push it, or pop at a dead end. It keeps the invariant and makes progress |
| Generator.MazeGenerator.Generate | src/mazegen/generator.py:28-70 | The returned grid is the field's new value, only lost walls, agrees on shared walls and keeps the outer walls. When the maze is not empty it is a spanning tree reached from (0, 0) |
| HexWriter.Entries | src/solver/hex_writer.py:64-69 | Each queued entry is the neighbour in its direction, with the path extended by that letter |
| HexWriter.EntriesCells | src/solver/hex_writer.py:64-69 | A cell is among the new entries exactly when it is the neighbour in one of the directions |
| HexWriter.Expandable | src/solver/hex_writer.py:59-67 | A direction is followed exactly when its wall is open, the neighbour is in bounds and it is unvisited |
| HexWriter.ExpandableDistinct | src/solver/hex_writer.py:59 | Each direction is followed at most once |
| HexWriter.BfsInit | src/solver/hex_writer.py:49-51 | The queue holding only the entry with an empty path satisfies the search invariant |
| HexWriter.BfsStep | src/solver/hex_writer.py:53-69 | Dequeuing a cell other than the exit and queueing its fresh open neighbours keeps the search invariant |
| HexWriter.FoundCells | src/solver/hex_writer.py:66-69 | Newly queued cells are unvisited grid cells, pairwise distinct, reached through open walls |
| HexWriter.StepBooks | src/solver/hex_writer.py:67-69 | Queueing keeps `visited` equal to done plus queued cells, with no cell queued twice |
| HexWriter.StepPaths | src/solver/hex_writer.py:69 | Every queued path is an open walk from the entry to its cell, and its length is the cell's distance |
| HexWriter.StepOptimal | src/solver/hex_writer.py:64-69 | Every visited cell's recorded distance is no longer than any open walk to it |
| HexWriter.HeadIsShortest | src/solver/hex_writer.py:53-54 | The head of the queue has the shortest path of all queued entries |
| HexWriter.StepExpanded | src/solver/hex_writer.py:56-69 | Expanding a non-exit cell keeps every open neighbour of an expanded cell visited |
| HexWriter.StepCover | src/solver/hex_writer.py:53-69 | Every cell reachable but not visited is reached through some queued cell |
| HexWriter.FoundUpToStep | src/solver/hex_writer.py:59-69 | Trying the next direction appends its neighbour exactly when the wall is open and the neighbour is fresh |
| HexWriter.TryDirection | src/solver/hex_writer.py:59-69 | One pass of the direction loop extends the queue and the visited set by the neighbour found in that direction |
| HexWriter.ExpandHead | src/solver/hex_writer.py:59-69 | The direction loop appends exactly the fresh open neighbours, in the order N, E, S, W, and marks them visited |
| HexWriter.SolveBfs | src/solver/hex_writer.py:27-71 | A returned path is an open walk from the entry to the exit that is no longer than any other. `None` exactly when the exit is unreachable. Entry equal to exit gives "". At most `w*h` dequeues |
| HexWriter.HexValue | src/solver/hex_writer.py:112 | A hex digit that reads as a mask is the digit written for that mask |
| HexWriter.HexRoundTrip | src/solver/hex_writer.py:112 | Every mask written as an upper-case hex digit reads back as itself |
| HexWriter.RowLineWidth | src/solver/hex_writer.py:111-113 | A row is written as one hex digit per cell |
| HexWriter.ParseRowLine | src/solver/hex_writer.py:111-113 | A written row reads back as itself |
| HexWriter.ParseRowsLines | src/solver/hex_writer.py:110-113 | The written rows read back as the grid |
| HexWriter.ParseCoordLine | src/solver/hex_writer.py:118-122 | A written `x,y` line reads back as the point |
| HexWriter.UnlinesJoin | src/solver/hex_writer.py:110-125 | Writing every line followed by a newline is joining the lines plus a final empty one with '\n' |
| HexWriter.LinesWithoutNewline | src/solver/hex_writer.py:110-125 | No written line holds a newline of its own |
| HexWriter.SplitContent | src/solver/hex_writer.py:110-125 | Splitting the file on '\n' gives back the rows, the blank line, entry, exit, path and a final empty piece |
| HexWriter.ParseSplitFile | src/solver/hex_writer.py:83-88 | A file whose lines are laid out in that format reads back as the grid, entry, exit and path |
| HexWriter.FileRoundTrip | src/solver/hex_writer.py:108-125 | The written file reads back as the grid, entry, exit and path it was written from |
| HexWriter.WriteMazeFile | src/solver/hex_writer.py:74-131 | Writes the file for the grid and the solved path. The path is "" when the exit is unreachable, and otherwise a shortest open walk to the exit |
| Pathfinding.SetWalkSnoc | src/solver/pathfinder.py:66-84 | Extending a set-bit walk by one set-bit move gives a set-bit walk that ends one step further |
| Pathfinding.SetWalkClosed | src/solver/pathfinder.py:66-84 | A set closed under set-bit moves contains the end of every set-bit walk from its members |
| Pathfinding.ShiftBeyond | src/solver/maze_data.py:21-23 | A cell beyond the grid on one side stays off the grid however far it moves further that way |
| Pathfinding.RayCard | src/solver/pathfinder.py:75-84 | Moving straight on from a cell for `n` steps meets `n + 1` distinct cells |
| Pathfinding.WalkBeyond | src/solver/pathfinder.py:63-72 | Once a walk is beyond the grid, it can go on in that direction for ever, since off the grid every bit is set |
| Pathfinding.OffGridIsBeyond | src/solver/maze_data.py:21-23 | A cell off the grid lies beyond it on some side |
| Pathfinding.ClosedSetStaysInGrid | src/solver/pathfinder.py:63-84 | If a set of visited cells is closed under set-bit moves, no set-bit walk from it leaves the grid |
| Pathfinding.LeavesAtBorder | src/solver/pathfinder.py:69-72 | A border cell with its outer wall set lets the search step off the grid, since there is no bounds check |
| Pathfinding.RecordedSnoc | src/solver/pathfinder.py:83-84 | Queueing a cell with a set-bit path to it keeps every queued path a set-bit walk to its cell |
| Pathfinding.RecordedTail | src/solver/pathfinder.py:52 | The dequeued entry's path is a set-bit walk from the entry to a visited cell |
| Pathfinding.SearchInit | src/solver/pathfinder.py:35-38 | The first queue and visited set meet the search invariant: levelled, shortest, and covering every walk of length 0 |
| Pathfinding.PendingTail | src/solver/pathfinder.py:52 | After the head is dequeued, the rest of the queue still holds shortest set-bit paths, each the head's length or one more |
| Pathfinding.PendingSnoc | src/solver/pathfinder.py:75-84 | Queueing an unvisited neighbour with one more letter keeps the queue levelled, and its path is a shortest set-bit walk to it |
| Pathfinding.CoverStep | src/solver/pathfinder.py:50-84 | Once a cell is expanded, every set-bit walk no longer than the new head's path ends in a visited cell |
| Pathfinding.SetExpandable | src/solver/pathfinder.py:42-47 | A direction is taken out of a cell exactly when it is one of N, E, S, W, its wall bit is set and its neighbour is unvisited |
| Pathfinding.SetFoundStep | src/solver/pathfinder.py:66-84 | Trying the next direction of N, E, S, W appends its neighbour, with the path one letter longer, exactly when its bit is set and the neighbour unvisited, and that neighbour is not among the cells generated so far |
| Pathfinding.SetFoundHas | src/solver/pathfinder.py:69-76 | Every unvisited neighbour behind a set bit is generated, with the path one letter longer |
| Pathfinding.TryMove | src/solver/pathfinder.py:66-84 | One pass of the direction loop either returns the exit's path, generated in order and one letter longer than the dequeued path, or keeps the loop invariant one direction further |
| Pathfinding.Expand | src/solver/pathfinder.py:63-84 | Expanding a dequeued cell returns a path exactly when the exit is among the generated neighbours, and then the path is that neighbour's entry: a set-bit walk to the exit that no set-bit walk to the exit undercuts. Otherwise the queue grows by exactly the generated entries in N, E, S, W order, those cells are marked visited, and the search invariant holds with the cell done |
| Pathfinding.ExhaustedSearch | src/solver/pathfinder.py:50-87 | An empty queue means the exit is not reachable by set-bit moves, and no such walk leaves the grid |
| Pathfinding.OpenPassageRefused | src/solver/pathfinder.py:68-69 | Through a single open door the search cannot take the door, but it can reach the exit through two walls |
| Pathfinding.Pathfinder.constructor | src/solver/pathfinder.py:16-20 | The solver keeps the record it was given |
| Pathfinding.Pathfinder.Solve | src/solver/pathfinder.py:22-87 | Entry equal to exit gives "". A non-empty result is a set-bit walk to the exit, and the shortest: no set-bit walk from the entry reaches the exit in fewer letters. An empty result otherwise means that no set-bit walk from the entry reaches the exit or leaves the grid. When every set-bit walk stays in the grid, `width * height` fuel is enough: the search then always answers and never runs out |
| Display.Trail | src/display.py:98-108 | The cells of a path include the entry and the end, and there are at most one more than the letters |
| Display.TrailMembers | src/display.py:98-108 | A cell is on the path exactly when some prefix of the path ends there |
| Display.TrailWitness | src/display.py:98-108 | Every cell on the path is the end of some prefix |
| Display.PrefixOnTrail | src/display.py:98-108 | The end of every prefix is on the path |
| Display.PathCells | src/display.py:98-108 | The loop collects exactly the cells the path passes through |
| Display.TrailAdvance | src/display.py:103-107 | One pass of the loop moves the position by the letter's offsets and adds the new cell |
| Display.TrailSnoc | src/display.py:103-107 | One more letter adds exactly the cell it moves to |
| Display.Pack | src/display.py:157-162 | The shifted flags form a key below 16, and the key is 0 exactly when no flag is set |
| Display.CornerTable | src/display.py:67-85 | For every set of arms, the table holds a glyph that draws exactly those arms |
| Display.CornerTableKeys | src/display.py:67-85 | Every glyph in the table is found again under the key of its own arms |
| Display.Glyph | src/display.py:163-166 | The corner is the bare blank exactly for key 0 |
| Display.KeyAsWritten | src/display.py:157-163 | The source's key always names an entry of the table |
| Display.CornerCharAsWritten | src/display.py:111-166 | The corner is the bare blank exactly when none of `arm_n`, `arm_e`, `arm_s`, `arm_w` is set. Otherwise its glyph has a down arm for `arm_n`, an up arm for `arm_e`, a right arm for `arm_s` and a left arm for `arm_w` |
| Display.FlagsAtBorder | src/display.py:136-139 | On the border corners the flags facing out of the grid are clear |
| Display.CornerAsWrittenMisdraws | src/display.py:149-163 | On two stacked open passages, the straight wall through the middle corner is drawn as a down-and-right corner |
| Display.OuterCornerAsWrittenMisdraws | src/display.py:149-163 | On the same grid, the top-left corner is drawn up-and-right |
| Display.CornerKey | src/display.py:157-163 | The corrected key always names an entry of the table |
| Display.CornerDraws | src/display.py:111-166 | The corrected corner draws exactly the wall segments meeting there, and a blank where none do |
| Display.SegmentsAtBorder | src/display.py:136-139 | No corner arm points out of the grid |
| Display.CornerMeetsWalls | src/display.py:141-155 | On a grid whose neighbours agree, each corner arm is present exactly when the wall piece drawn next to the corner on that side is |
| Display.MarksDiffer | src/display.py:231-240 | The entry, exit, path, pattern and blank interiors are pairwise distinct |
| Display.InteriorMarks | src/display.py:197-201 | The entry mark appears exactly at the entry. The exit mark appears exactly at the exit. Path dots appear exactly on path cells, only when the path is shown and non-empty. The pattern mark appears exactly on the remaining pattern cells |
| Display.Pairs | src/display.py:203-249 | Two lines for each row |
| Display.PairsAt | src/display.py:248-249 | Row `y`'s top line comes before its middle line, at positions `2y` and `2y + 1` |
| Display.FrameLayout | src/display.py:203-260 | A frame, with either corner function, is `2h + 1` lines: each row's top border, then its cell line, then the bottom border |
| Display.TopLineAsWrittenDiffers | src/display.py:204-218 | On `TWO_PASSAGES` the border above the second row, drawn with `_corner_char` as written, differs from the corrected one |
| Display.FrameAsWrittenDiffers | src/display.py:203-260 | On `TWO_PASSAGES` the frame drawn as written is not the corrected frame, whatever the marks, path and colour |
| Display.RenderMaze | src/display.py:169-260 | The lines printed are exactly the frame for the grid, marks, path and colour, with the corners `_corner_char` draws as written |
| Display.RowsOf | src/display.py:203-249 | The row loop prints each row's top line, with the corners as written, and then its cell line |
| Display.TopOf | src/display.py:204-218 | Builds a top border line: the corner `_corner_char` draws as written, a horizontal wall piece, and so on, closed by the last corner as written |
| Display.MidOf | src/display.py:220-246 | Builds a cell line: left wall and interior for each cell, closed by the last cell's east wall |
| Display.BotOf | src/display.py:251-259 | Builds the bottom border line from the last row's south walls, with the corners `_corner_char` draws as written |
| Display.Next | src/display.py:335-341 | "1" takes the next grid and path from the callback and hides the path. "2" toggles the path. "3" keeps the colour index in range. Any other choice changes nothing |
| Display.Session | src/display.py:316-344 | The first frame shows the starting view, and no more frames are drawn than one per input line plus one |
| Display.SessionAt | src/display.py:329-344 | The loop stops at the end of input or on "4"; otherwise it draws the view after the choice |
| Display.RunDisplay | src/display.py:288-344 | Starts with the path hidden and the first colour. The views drawn are exactly the session for the input lines |
| Display.SessionColours | src/display.py:324 | Every frame's colour index is valid for `WALL_COLOURS` |
| Display.QuitStops | src/display.py:342-344 | No frame is drawn after a "4" |
| Display.NoQuitFrames | src/display.py:316-341 | Without a "4", one frame is drawn per input line plus one |
| Display.ToggleTwice | src/display.py:338-339 | Toggling the path twice restores the view |
| Display.ColourSteps | src/display.py:340-341 | `n` presses of "3" advance the colour index by `n` modulo 7 |
| Display.ColourCycle | src/display.py:49-57 | Seven presses of "3" restore the colour, and fewer than seven do not |

## Left out

- Reading and writing files, `print`, `os.system("clear")`, `input` and `sys.exit` are
  left out. The file is a sequence of lines or a string, the input a sequence of
  lines, and the screen the returned lines.
- The `FileNotFoundError` of `parse_config` and the `OSError` of `write_maze_file`
  are left out; no file system is modelled.
- `random.seed` and `random.choice` are left out. The generator stores the seed
  but has no random state. Its choices come from the `pick` parameter, which
  stands for every possible choice sequence.
- `_print_menu`, `WALL_NAMES`, the `FG`/`BG` colour names other than those used,
  and the empty `_42_pattern` are left out. They compute nothing the model needs.
- Generator.MazeGenerator.Generate: requires the grid to be the fresh all-walls
  grid, so it covers only the first call on a generator, which is how the
  program uses it.
- Generator.MazeGenerator.constructor: does not model the `print(self.grid)` on
  line 26.
- Pathfinding.Pathfinder.Solve: takes a `fuel` bound on the number of dequeues
  and returns `OutOfFuel` when it runs out. The source loop need not stop: off
  the grid every bit is set, so the queue can grow for ever. `LeavesAtBorder`,
  `WalkBeyond` and `RayCard` show how. When every set-bit walk from the entry
  stays in the grid, `width * height` fuel always suffices. Otherwise `Solve`
  promises nothing about when it stops.
- Walls: masks are `bv4`, so cell values outside 0..15 are not modelled. The
  generator only produces 0..15.
- Text.ParseInt: `int()` is modelled for ASCII decimal digits with an optional
  sign and surrounding whitespace only. The digit-group underscores, other
  scripts' digits and other Unicode whitespace that Python accepts are not
  modelled.
- Text.Strip: only ASCII whitespace and the separators U+001C..U+001F count as
  whitespace. Text.Lower lower-cases ASCII letters only.
- Config.Dimensions: the `w < 3` error on line 62 is raised inside the `try` and
  replaced by the generic message on line 64, so the model has one message for
  both failures. The second
  `except ValueError` (lines 66-67) can never run and has no counterpart.
- Display: the first set of arm formulas in `_corner_char` (`go_n` .. `go_w`,
  lines 142-145) is dead code and is not modelled.
- Display.PathCells: requires every letter to be N, E, S or W. Another letter
  raises `KeyError` in the source, and the path always comes from a solver.
- Display.RenderMaze: requires the grid to have at least one column (line 243
  indexes `grid[y][width - 1]`), and the shown path to be made of direction
  letters.
- Display.RunDisplay: returns the view behind each frame rather than the frame
  text; `RenderMaze` maps a view to its lines. `EOFError` is modelled as the end
  of the input, and `KeyboardInterrupt` is not modelled.
- HexWriter.SolveBfs: requires the entry to be inside the grid. Python's negative
  indexing, which would wrap out-of-range entries, is not modelled. The
  configuration checks ensure an in-bounds entry.
- HexWriter.SolveBfs and HexWriter.WriteMazeFile: require a non-empty, rectangular
  grid. On an empty grid `len(grid[0])` (src/solver/hex_writer.py:46) raises
  `IndexError`. A ragged grid can fail reading a row shorter than the first. The
  only grids passed are generated ones, rectangular and at least 3 x 3
  (src/mazegen/utils/config.py:61), so nothing the program does is lost.

## Findings

| source | as written | input that shows it | evidently intended | confidence | as-written member | corrected member |
|---|---|---|---|---|---|---|
| src/display.py:149-163 | The arms test the wrong walls. `arm_n` and `arm_s` both test the horizontal walls left and right of the corner. `arm_w` and `arm_e` both test the vertical walls above and below it. So the glyph confuses horizontal and vertical segments | `TWO_PASSAGES` = [[13, 7], [13, 7]]: corner (1, 1) is drawn ┌ instead of ─, and corner (0, 0) is drawn └ instead of ┌ | Each arm is the wall segment between the two cells on that side of the corner, so the glyph draws the walls that meet there; `Frame(Corrected, ...)` is the frame drawn with that corner | not executed | Display.CornerCharAsWritten, Display.CornerAsWrittenMisdraws, Display.RenderMaze, Display.FrameAsWrittenDiffers | Display.CornerChar, Display.CornerDraws |
| src/solver/pathfinder.py:68-69 | The search follows a direction when `current_walls & wall_bit` is non-zero, that is through a wall, while the comment beside it says a zero result is the open door | `ONE_PASSAGE`: a 2 x 1 grid [[13, 7]] with entry (0, 0) and exit (1, 0). The open walk "E" can never be returned, and "NES", through two walls, reaches the exit | Follow a direction when the bit is clear, as `solve_bfs` in the same repository does | not executed | Pathfinding.Pathfinder.Solve, Pathfinding.OpenPassageRefused | HexWriter.SolveBfs |

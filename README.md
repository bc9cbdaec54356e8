# live-mazes: a verified model of the maze core

This project models the maze core of live-mazes in Dafny:
- the grid of cells with four wall flags each, and carving a passage between two neighbouring cells;
- the boundary-aware queries and the cell keys;
- the console picture of a maze;
- three maze generators: binary tree, sidewinder and random walk;
- the breadth-first distance computation that the renderer uses to shade cells.

The project is split into these modules:
- `GridModel` (`grid.dfy`) holds the value-level definitions every other module is specified against:
  - a `Grid` is the dimensions plus the `cells[y][x]` rows;
  - `Carve` is what carving does to a grid;
  - `Symmetric` and `BorderClosed` are the invariants carving keeps;
  - `Passages` counts the open passages between cells;
  - `AdjacentOf` and `OpenNeighborsOf` are the cells next to a cell.
- `MazeTypes` (`maze.dfy`) is `src/maze/types.ts`:
  - `Maze` is a class whose `cells` field the carving methods reassign;
  - every operation is specified through `Maze.Snapshot()`.
- `MazeConsole` (`draw.dfy`) is `draw_maze_console`. Its loops are proved to build `Drawing(cells)`, and lemmas describe that picture line by line.
- `Random` (`random.dfy`) is the seeded generator the generators draw from. Only the ranges of its results are relied on.
- `Generators` (`generators.dfy`) holds the three generators of `src/App.tsx`. Every generator keeps shared walls in agreement and the border closed. The binary-tree and sidewinder loops end in their shape with `rows * cols - 1` open passages. For the random walk, that count holds when the walk finishes.
- `Distances` (`distances.dfy`) is `compute_distances`. The search is proved against reachability over the moves `neighbors` allows:
  - every cell written gets its fewest-moves count;
  - exactly the reachable cells are written;
  - `"max"` is the largest count, or 1;
  - every other key of the record keeps its value.

A cell object of the source is referred to by its coordinates (`Pos`). A maze builds one object per position and never moves it, so the coordinates identify it.

In three places the code's choices are easy to misread:
- `neighbors` and `adjacent_cells` list cells in the order W, E, N, S (src/maze/types.ts:147-197).
- `generate_maze_random_walk` builds `Maze(width, height)`, which has `width` rows (see Findings).
- `"max"` starts at 1 and only grows (src/App.tsx:195, 205), so it is the larger of 1 and the largest count.

## Model

| member | source | states |
|---|---|---|
| GridModel.NewCell | src/maze/types.ts:14-25 | a new cell has the given coordinates and all four walls standing |
| MazeTypes.Maze.constructor | src/maze/types.ts:33-45 | `Maze(rows, columns)` has `rows` rows of `columns` cells, the cell at `[y][x]` has coordinates `(x, y)`, and every wall stands |
| MazeTypes.CopyMaze | src/maze/types.ts:49-54 | the copy is a new object with the same dimensions and the same wall flags, so later carving in one does not change the other |
| MazeTypes.CarvePath | src/maze/types.ts:70-92 | the maze afterwards is `Carve` of the maze before; the target cell must be on the grid |
| GridModel.CarveExactly | src/maze/types.ts:70-92 | carving clears exactly the cell's wall facing the direction and the neighbour's opposite wall; every other flag keeps its value |
| GridModel.CarveNone | src/maze/types.ts:88-89 | carving towards "None" leaves the grid unchanged |
| GridModel.CarvePreservesSymmetry | src/maze/types.ts:70-92 | if every pair of adjacent cells agrees on its shared wall before a carve, it still does after |
| GridModel.CarvePreservesBorder | src/maze/types.ts:70-92 | a carve whose target is on the grid never opens a wall of the outer border |
| GridModel.CarveAddsPassage | src/maze/types.ts:70-92 | carving through a standing wall of a symmetric grid opens exactly one more passage |
| GridModel.SymmetricFacing | src/maze/types.ts:73-87 | in a symmetric grid a cell's wall facing d equals the neighbour's wall facing back |
| GridModel.ClosedHasNoPassage | src/maze/types.ts:33-45 | a maze whose walls all stand has no open passage |
| MazeTypes.EdgeConditions | src/maze/types.ts:94-111 | for a cell on the grid, each flag holds exactly when the step across that border leaves the grid |
| MazeTypes.NoclipDirectionsFor | src/maze/types.ts:113-129 | the result contains a direction iff its step stays on the grid; it is a subsequence of N, E, S, W (no duplicates, that order); it is non-empty on a grid of more than one cell |
| GridModel.OnGridDirectionsSpec | src/maze/types.ts:113-129 | the directions kept are exactly those whose step stays on the grid, in compass order, and some remain when the grid has more than one cell |
| MazeTypes.MoveDir | src/maze/types.ts:131-145 | the cell one step away in the direction (the cell itself for "None"), which is on the grid when the step is |
| MazeTypes.AdjacentCells | src/maze/types.ts:147-171 | the on-grid cells next to the cell in the order W, E, N, S: a cell is listed iff it is on the grid and adjacent; at most four |
| GridModel.AdjacentOfSpec | src/maze/types.ts:147-171 | the W, E, N, S list holds exactly the on-grid adjacent cells, each once, at most four |
| MazeTypes.Neighbors | src/maze/types.ts:173-197 | a cell is listed iff it is one step away through a side whose wall is open on the cell's own side and stays on the grid; the list is a subsequence of `adjacent_cells`; at most four |
| GridModel.OpenNeighborsOfMembers | src/maze/types.ts:173-197 | membership in the neighbour list is exactly "one step through an open side onto the grid" |
| GridModel.OpenNeighborsOfSubsequence | src/maze/types.ts:147-197 | the neighbour list is the adjacent list with some cells left out, order kept |
| GridModel.OpenNeighborsSymmetric | src/maze/types.ts:173-197 | in a symmetric grid q is a neighbour of p iff p is a neighbour of q |
| MazeTypes.CellId | src/maze/types.ts:199-201 | the key is x's decimal numeral (with `-` when negative), `:`, then y's numeral; it has at least three characters and begins with a digit or `-`; CellIdInjective proves it one-to-one and never `"max"` |
| MazeTypes.CellIdInjective | src/maze/types.ts:199-201 | two cells have the same key `"x:y"` iff they are the same cell, and no key is `"max"` |
| MazeConsole.DrawMazeConsole | src/maze/types.ts:203-255 | the text built is `Drawing(maze.cells)`: the top line over the first row, then each row's middle and bottom line |
| MazeConsole.DrawTopLine | src/maze/types.ts:215-226 | the line is a corner, then per cell its north glyph and a corner |
| MazeConsole.DrawMiddleLine | src/maze/types.ts:228-240 | the line is the first cell's west glyph, then per cell two blanks and its east glyph |
| MazeConsole.DrawBottomLine | src/maze/types.ts:241-251 | the line is a corner, then per cell its south glyph and a corner; empty for an empty row |
| MazeConsole.DrawingJoinsLines | src/maze/types.ts:211-252 | the picture is its lines, each preceded by a line break |
| MazeConsole.LinesLayout | src/maze/types.ts:211-252 | there are `2 * rows + 1` lines (none for no rows): the top line, then a middle and a bottom line for each row in turn |
| MazeConsole.TopLineShape | src/maze/types.ts:218-226 | the top line has `3 * columns + 1` characters, corners every third, and `--` exactly over cells whose north wall stands |
| MazeConsole.MiddleLineShape | src/maze/types.ts:229-240 | a middle line has `3 * columns + 1` characters, starts with the west glyph, and has `|` exactly after cells whose east wall stands |
| MazeConsole.BottomLineShape | src/maze/types.ts:242-251 | a bottom line has `3 * columns + 1` characters, corners every third, and `--` exactly under cells whose south wall stands |
| MazeConsole.DrawsClosedBorder | src/maze/types.ts:203-252 | for a maze with a closed border, the top and last bottom lines are all `+` and `-`, and every middle line starts and ends with `|` |
| Random.Prng.Float | src/App.tsx:36 | `r.float()` is in [0, 1) |
| Random.Prng.RandBelow | src/App.tsx:91 | `r.randBelow(n)` is below n |
| Random.Prng.Choice | src/App.tsx:124 | `r.choice(s)` is an element of s |
| Generators.ChooseDirection | src/App.tsx:25-41 | None at the top-right corner, N along the right edge, E along the top edge, N or E elsewhere |
| Generators.BinaryTreeStep | src/App.tsx:29-43 | the chosen carve stays on the grid and moves the loop invariant one cell on, with one more passage except at the top-right cell |
| Generators.BinaryTreeVisit | src/App.tsx:21-44 | one pass of the inner loop moves the invariant from a cell to the next |
| Generators.BinaryTreeStart | src/App.tsx:10-20 | the fresh maze satisfies the invariant before the first cell with no passage |
| Generators.BinaryTreeDone | src/App.tsx:20-47 | after the last row every cell has the binary-tree shape and there are `rows * cols - 1` passages |
| Generators.GenerateMazeBinaryTree | src/App.tsx:9-48 | the result is `rows` by `cols`, symmetric, closed at the border, has the binary-tree shape (top-right opens nothing, right column north, top row east, other cells exactly one of north and east) and `rows * cols - 1` passages |
| Generators.SidewinderNorth | src/App.tsx:89-95 | carving north from a cell `c` of the run `[left, x]` gives every cell of the run a way north through `c`, and the next run starts at `right = x + 1` |
| Generators.SidewinderNorthStep | src/App.tsx:89-95 | the north carve keeps the inner-loop invariant with one more passage, `left` moved to `right` |
| Generators.SidewinderOtherStep | src/App.tsx:96-98 | an east carve, or "None" at the top-right cell, keeps the invariant without moving `left` |
| Generators.SidewinderCell | src/App.tsx:65-99 | one pass of the inner loop: `right` becomes `x + 1`; either the run goes on (`left` unchanged) or a north carve from a candidate in `[left, right)` closes it and `left` becomes `right`; the invariant moves to the next cell |
| Generators.SidewinderRowEnd | src/App.tsx:62-100 | at the end of a row every cell of it has a cell of its run open to the north (the top row is one corridor) |
| Generators.SidewinderDone | src/App.tsx:50-104 | after the last row the maze has the sidewinder shape and `rows * cols - 1` passages |
| Generators.GenerateMazeSidewinder | src/App.tsx:50-104 | the result is `rows` by `cols`, symmetric, closed at the border, the top row a corridor closed to the north, every other cell's run open north somewhere, with `rows * cols - 1` passages |
| Generators.WalkStart | src/App.tsx:115-118 | from a closed maze, the walk's invariant holds with only the start visited |
| Generators.WalkCarveStep | src/App.tsx:127-134 | stepping onto an unvisited cell, whose walls all stand, and carving to it keeps the invariant: passages = visited - 1, unvisited cells sealed |
| Generators.WalkDone | src/App.tsx:120-122 | when as many cells are visited as the grid has, all are visited and there are `rows * cols - 1` passages |
| Generators.RandomWalk | src/App.tsx:118-135 | the walk keeps the maze symmetric and closed at the border, never calls `choice` on no options, and on finishing has opened `size - 1` passages |
| Generators.SwappedStartAlwaysOnGrid | src/App.tsx:107-117 | every start the walk can draw lies on its `Maze(width, height)` iff width equals height |
| Generators.GenerateMazeRandomWalk | src/App.tsx:106-138 | as written: the maze has `width` rows of `height` cells; a start off the grid happens only when width differs from height; a finished walk leaves `width * height - 1` passages |
| Generators.GenerateMazeRandomWalkCorrected | src/App.tsx:106-138 | with `Maze(height, width)` the start is always on the grid, and a finished walk leaves `width * height - 1` passages |
| Distances.SearchStart | src/App.tsx:190-195 | the queue `[cell]`, the visited set `{cell}` and the count 0 satisfy the search invariant |
| Distances.Dequeue | src/App.tsx:196-197 | the front of the queue has the smallest count queued; the rest of the queue stays sorted |
| Distances.Discover | src/App.tsx:200-205 | a new neighbour is one move further than `current`: it is visited and queued with `current`'s count + 1 |
| Distances.Revisit | src/App.tsx:199-200 | a neighbour already visited leaves the search state unchanged |
| Distances.ExpandDone | src/App.tsx:198-207 | once every neighbour of `current` is visited, each has a count at most one more than `current`'s |
| Distances.SearchDone | src/App.tsx:196-208 | when the queue is empty, the visited cells are exactly those reachable from the start, and each count is the fewest moves |
| Distances.ClosedUnderMoves | src/App.tsx:196-208 | every cell within k moves of the start is visited with a count of at most k |
| Distances.RecordWrite | src/App.tsx:192-202 | writing a new cell's count under its key keeps every other key's value |
| Distances.MaxKeyFree | src/App.tsx:209 | no cell's key collides with `"max"` |
| Distances.Max | src/App.tsx:205 | `Math.max` is at least both arguments and one of them |
| Distances.VisitNeighbor | src/App.tsx:199-206 | one pass of the inner loop keeps the search invariant, the record and the running maximum in step |
| Distances.ComputeDistances | src/App.tsx:189-210 | the cells written are exactly those reachable from `cell`; each gets its fewest-moves count; `"max"` is at least 1 and at least every count, and equals one of them unless it is 1; every other key keeps its value |

## Left out

- MazeTypes.Maze.constructor: the dimensions are `nat`. `new Array(rows)` and `new Array(columns)` throw a RangeError for a negative or fractional size (src/maze/types.ts:37, 40), and that error is not modelled. The generators' dimensions are `nat` for the same reason.
- The React components `DrawMaze`, `TextureRenderer` and `App`: UI and rendering code, not part of this model.
- The fill opacity `actual_distance / max_distance` and the cell size and offset arithmetic: floating-point presentation.
- `console.log` in `draw_maze_console`: I/O. `MazeConsole.DrawMazeConsole` returns the text instead.
- `exhaust_switch` (src/utils/switch.ts): the model matches over a closed datatype, so no case can be missed.
- `MazeGenerationHistory`: an unused type.
- Random.Prng: the internals of `XORShift64` are foreign code. The class advances its state with a stand-in recurrence, and callers rely only on the range of each result. The bias comparison `r.float() < bias` uses a `real`.
- Generators.RandomWalk: the walk ends only with probability 1. A `fuel` bound on the number of steps stands in for that, with an `OutOfFuel` outcome, and no termination is claimed.
- Generators.GenerateMazeRandomWalk: requires `width > 0` and `height > 0`. `randBelow(0)` lies outside the generator's documented range, so an empty maze is not modelled.
- Generators.GenerateMazeSidewinder: `SidewinderShape` states that every run has a cell open to the north, not that this cell is unique. Uniqueness follows from the passage count together with connectivity.
- Generators.GenerateMazeBinaryTree, Generators.GenerateMazeSidewinder, Generators.GenerateMazeRandomWalk, Generators.GenerateMazeRandomWalkCorrected, Generators.RandomWalk: they prove the passage count (`rows * cols - 1`) but not that the maze is connected and acyclic. The passage-count invariants carry no reachability over the carved passages, and a spanning-tree proof would need it.
- Distances.ComputeDistances: the source's `visited` set compares cell objects. The model compares coordinates, which coincide for the one-object-per-cell mazes of `MazeTypes`.
- Distances.ComputeDistances: the ghost result `reached` exists only for the specification. The source returns nothing.
- MazeTypes.CopyMaze: the copy shares no wall objects with the original in the source. The model's walls are values, so aliasing cannot arise and is not modelled.
- Cell objects that generators pick out of a row (`cell = row[candidate]`): modelled by their coordinates, which the maze's construction guarantees.

## Findings

| source | as written | input that shows it | evidently intended | confidence | as-written member | corrected member |
|---|---|---|---|---|---|---|
| src/App.tsx:107-117 | `Maze(width, height)` builds `width` rows of `height` cells, but the start is read as `cells[y_start][x_start]` with `x_start < width` and `y_start < height` | `width = 2`, `height = 1`, `x_start = 1`: `cells[0][1]` does not exist, and the walk fails on its first use of the cell | `Maze(height, width)`, so that every drawn start is a cell | high; not executed | Generators.GenerateMazeRandomWalk, Generators.SwappedStartAlwaysOnGrid | Generators.GenerateMazeRandomWalkCorrected |

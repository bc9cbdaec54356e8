/** The three maze generators of src/App.tsx: binary tree, sidewinder and random walk.
    Each starts from a maze with every wall standing and knocks walls down with
    carve_path; the random choices come from the Prng. */
module Generators {
  import opened GridModel
  import opened MazeTypes
  import opened Random

  /** The cell at (x, y) comes before the cell at (x', y') in row-major order. */
  predicate Before(x: int, y: int, x': int, y': int)
  {
    y < y' || (y == y' && x < x')
  }

  /** The north and east walls of the cell at (x, y) both stand. */
  predicate NorthEastClosed(g: Grid, x: int, y: int)
    requires WellFormed(g) && 0 <= y < g.rows && 0 <= x < g.columns
  {
    g.cells[y][x].walls.north && g.cells[y][x].walls.east
  }

  // ---------------------------------------------------------------------------
  // Binary tree

  /** What the binary tree leaves at (x, y): the top-right cell opens nothing, the
      rest of the right column opens north, the rest of the top row opens east, and
      every other cell opens exactly one of north and east. */
  predicate BinaryTreeCell(g: Grid, x: int, y: int)
    requires WellFormed(g) && 0 <= y < g.rows && 0 <= x < g.columns
  {
    var w := g.cells[y][x].walls;
    if y == 0 && x == g.columns - 1 then w.north && w.east
    else if x == g.columns - 1 then !w.north && w.east
    else if y == 0 then w.north && !w.east
    else w.north != w.east
  }

  predicate BinaryTreeShape(g: Grid)
    requires WellFormed(g)
  {
    forall y, x :: 0 <= y < g.rows && 0 <= x < g.columns ==> BinaryTreeCell(g, x, y)
  }

  /** The state of the binary tree's loops once every cell before (x, y) is done. */
  predicate BinaryTreeProgress(g: Grid, x: int, y: int)
    requires WellFormed(g)
  {
    forall y', x' :: 0 <= y' < g.rows && 0 <= x' < g.columns ==>
      if Before(x', y', x, y) then BinaryTreeCell(g, x', y') else NorthEastClosed(g, x', y')
  }

  /** The passages open once every cell before (x, y) is done: one per cell but the top-right one. */
  function CarvedCount(columns: nat, x: nat, y: nat): int
  {
    y * columns + x - (if columns > 0 && (y > 0 || x == columns) then 1 else 0)
  }

  /** What every generator keeps while it carves: shared walls agree and the border is closed. */
  predicate Carving(g: Grid)
  {
    WellFormed(g) && Symmetric(g) && BorderClosed(g)
  }

  /** The state of the binary tree's loops before the cell at (x, y). */
  predicate BinaryTreeLoop(g: Grid, x: int, y: int)
  {
    Carving(g) && 0 <= x <= g.columns && 0 <= y <= g.rows &&
    BinaryTreeProgress(g, x, y) && Passages(g) == CarvedCount(g.columns, x, y)
  }

  /** The direction both the binary tree and the sidewinder pick at a cell: nothing at
      the top-right corner, north along the right edge, east along the top edge, and
      elsewhere east when the next float drawn is below bias, north otherwise. */
  method ChooseDirection(isTopEdge: bool, isRightEdge: bool, r: Prng, bias: real) returns (dir: OptionalDirection)
    modifies r
    ensures isTopEdge && isRightEdge ==> dir == None
    ensures !isTopEdge && isRightEdge ==> dir == N
    ensures isTopEdge && !isRightEdge ==> dir == E
    ensures !isTopEdge && !isRightEdge ==> dir == N || dir == E
  {
    if isTopEdge && isRightEdge {
      dir := None;
    } else if isRightEdge {
      dir := N;
    } else if isTopEdge {
      dir := E;
    } else {
      var f := r.Float();
      if f < bias {
        dir := E;
      } else {
        dir := N;
      }
    }
  }

  /** generate_maze_binary_tree: every cell but the top-right one carves north or east,
      east with probability bias where both are possible. */
  method GenerateMazeBinaryTree(cols: nat, rows: nat, r: Prng, bias: real) returns (maze: Maze)
    modifies r
    ensures fresh(maze) && maze.Valid()
    ensures maze.rows == rows && maze.columns == cols
    ensures Symmetric(maze.Snapshot()) && BorderClosed(maze.Snapshot())
    ensures BinaryTreeShape(maze.Snapshot())
    ensures rows * cols > 0 ==> Passages(maze.Snapshot()) == rows * cols - 1
  {
    maze := new Maze(rows, cols);
    BinaryTreeStart(maze.Snapshot());
    var y := 0;
    while y < |maze.cells|
      invariant maze.rows == rows && maze.columns == cols
      invariant BinaryTreeLoop(maze.Snapshot(), 0, y)
    {
      var row := maze.cells[y];
      var x := 0;
      while x < |row|
        invariant maze.rows == rows && maze.columns == cols && y < rows
        invariant |row| == cols && forall k :: 0 <= k < cols ==> row[k].x == k && row[k].y == y
        invariant BinaryTreeLoop(maze.Snapshot(), x, y)
      {
        var cell := Pos(row[x].x, row[x].y);
        BinaryTreeVisit(maze, cell, r, bias);
        x := x + 1;
      }
      BinaryTreeNextRow(maze.Snapshot(), y);
      y := y + 1;
    }
    BinaryTreeDone(maze.Snapshot());
  }

  /** The body of the binary tree's inner loop: the cell picks its direction and carves. */
  method BinaryTreeVisit(maze: Maze, cell: Pos, r: Prng, bias: real)
    requires BinaryTreeLoop(maze.Snapshot(), cell.x, cell.y) && InBounds(maze.Snapshot(), cell)
    modifies maze, r
    ensures BinaryTreeLoop(maze.Snapshot(), cell.x + 1, cell.y)
  {
    var dir := ChooseDirection(cell.y == 0, cell.x == maze.columns - 1, r, bias);
    BinaryTreeStep(maze.Snapshot(), cell, dir);
    CarvePath(cell, maze, dir);
  }

  lemma BinaryTreeStart(g: Grid)
    requires WellFormed(g) && AllClosed(g)
    ensures BinaryTreeLoop(g, 0, 0)
  {
    ClosedHasNoPassage(g);
    forall y, x, d: Direction | 0 <= y < g.rows && 0 <= x < g.columns
      ensures WallOn(g.cells[y][x].walls, d)
    {
    }
  }

  lemma BinaryTreeNextRow(g: Grid, y: int)
    requires BinaryTreeLoop(g, g.columns, y) && y < g.rows
    ensures BinaryTreeLoop(g, 0, y + 1)
  {
    assert CarvedCount(g.columns, g.columns, y) == CarvedCount(g.columns, 0, y + 1) by {
      assert (y + 1) * g.columns == y * g.columns + g.columns;
    }
    forall y', x' | 0 <= y' < g.rows && 0 <= x' < g.columns
      ensures Before(x', y', g.columns, y) == Before(x', y', 0, y + 1)
    {
    }
  }

  /** Once every row is done, every cell follows the binary tree's rule and the maze has
      one passage fewer than it has cells. */
  lemma BinaryTreeDone(g: Grid)
    requires BinaryTreeLoop(g, 0, g.rows)
    ensures BinaryTreeShape(g)
    ensures g.rows * g.columns > 0 ==> Passages(g) == g.rows * g.columns - 1
  {
    forall y', x' | 0 <= y' < g.rows && 0 <= x' < g.columns ensures BinaryTreeCell(g, x', y') {
      assert Before(x', y', 0, g.rows);
    }
  }

  /** One step of the binary tree: carving the chosen direction at the next cell keeps
      the grid symmetric with a closed border, marks the cell done, and opens one more
      passage unless the cell is the top-right one. */
  lemma BinaryTreeStep(g: Grid, p: Pos, d: OptionalDirection)
    requires BinaryTreeLoop(g, p.x, p.y) && InBounds(g, p)
    requires p.y == 0 && p.x == g.columns - 1 ==> d == None
    requires p.y != 0 && p.x == g.columns - 1 ==> d == N
    requires p.y == 0 && p.x != g.columns - 1 ==> d == E
    requires p.y != 0 && p.x != g.columns - 1 ==> d == N || d == E
    ensures InBounds(g, Step(p, d))
    ensures BinaryTreeLoop(Carve(g, p, d), p.x + 1, p.y)
  {
    var g' := Carve(g, p, d);
    assert NorthEastClosed(g, p.x, p.y);
    CarvePreservesSymmetry(g, p, d);
    CarvePreservesBorder(g, p, d);
    if d == None {
      CarveNone(g, p);
    } else {
      CarveAddsPassage(g, p, d);
    }
    BinaryTreeStepCells(g, p, d);
  }

  lemma BinaryTreeStepCells(g: Grid, p: Pos, d: OptionalDirection)
    requires WellFormed(g) && InBounds(g, p) && BinaryTreeProgress(g, p.x, p.y)
    requires p.y == 0 && p.x == g.columns - 1 ==> d == None
    requires p.y != 0 && p.x == g.columns - 1 ==> d == N
    requires p.y == 0 && p.x != g.columns - 1 ==> d == E
    requires p.y != 0 && p.x != g.columns - 1 ==> d == N || d == E
    ensures BinaryTreeProgress(Carve(g, p, d), p.x + 1, p.y)
  {
    var g' := Carve(g, p, d);
    forall y', x' | 0 <= y' < g.rows && 0 <= x' < g.columns
      ensures if Before(x', y', p.x + 1, p.y) then BinaryTreeCell(g', x', y') else NorthEastClosed(g', x', y')
    {
      var q := Pos(x', y');
      CarveNorthEast(g, p, d, q);
      if q == p {
        assert WallsAt(g, q) == g.cells[y'][x'].walls && WallsAt(g', q) == g'.cells[y'][x'].walls;
        assert NorthEastClosed(g, p.x, p.y);
      } else if Before(x', y', p.x + 1, p.y) {
        assert Before(x', y', p.x, p.y);
        assert BinaryTreeCell(g, x', y');
        assert WallsAt(g, q) == g.cells[y'][x'].walls && WallsAt(g', q) == g'.cells[y'][x'].walls;
      } else {
        assert NorthEastClosed(g, x', y');
        assert WallsAt(g, q) == g.cells[y'][x'].walls && WallsAt(g', q) == g'.cells[y'][x'].walls;
      }
    }
  }

  // ---------------------------------------------------------------------------
  // Sidewinder

  /** Every cell of row y from column a up to, not including, column b has its east wall open. */
  predicate EastOpenBetween(g: Grid, y: int, a: int, b: int)
    requires WellFormed(g) && 0 <= y < g.rows && 0 <= a && b <= g.columns
  {
    forall j :: a <= j < b ==> !g.cells[y][j].walls.east
  }

  /** The cell at (c, y) has its north wall open and can be reached from (k, y) along the row. */
  predicate RunExit(g: Grid, y: int, k: int, c: int)
    requires WellFormed(g) && 0 <= y < g.rows && 0 <= k < g.columns
  {
    0 <= c < g.columns && !g.cells[y][c].walls.north &&
    (if c <= k then EastOpenBetween(g, y, c, k) else EastOpenBetween(g, y, k, c))
  }

  /** Some cell of the run of (k, y) is open to the north. */
  predicate HasRunExit(g: Grid, y: int, k: int)
    requires WellFormed(g) && 0 <= y < g.rows && 0 <= k < g.columns
  {
    exists c :: 0 <= c < g.columns && RunExit(g, y, k, c)
  }

  /** What the sidewinder leaves in row y: the top row is one corridor with no opening
      north; in every other row each cell's run (the cells joined to it along the row)
      has a cell open to the north. */
  predicate SidewinderRow(g: Grid, y: int)
    requires WellFormed(g) && 0 <= y < g.rows
  {
    if y == 0 then
      forall k :: 0 <= k < g.columns ==> g.cells[0][k].walls.north && (g.cells[0][k].walls.east <==> k == g.columns - 1)
    else
      forall k :: 0 <= k < g.columns ==> HasRunExit(g, y, k)
  }

  predicate SidewinderShape(g: Grid)
    requires WellFormed(g)
  {
    forall y :: 0 <= y < g.rows ==> SidewinderRow(g, y)
  }

  /** Rows y and below still have every north and east wall standing. */
  predicate RowsUntouched(g: Grid, y: int)
    requires WellFormed(g)
  {
    forall y', x' :: 0 <= y <= y' < g.rows && 0 <= x' < g.columns ==> NorthEastClosed(g, x', y')
  }

  /** The state of the sidewinder's inner loop in row y before the cell at column x:
      rows above are done; in row y the current run is [left, x), still closed to the
      north, and every cell before left has a run exit recorded in exits. */
  predicate SidewinderProgress(g: Grid, x: int, y: int, left: int, exits: seq<int>)
    requires WellFormed(g)
  {
    0 <= left <= x <= g.columns && 0 <= y < g.rows && (y == 0 ==> left == 0) &&
    (y > 0 && x == g.columns ==> left == x) &&
    (forall y' :: 0 <= y' < y ==> SidewinderRow(g, y')) &&
    RowsUntouched(g, y + 1) &&
    (forall k :: x <= k < g.columns ==> NorthEastClosed(g, k, y)) &&
    (forall k :: left <= k < x ==> g.cells[y][k].walls.north && (g.cells[y][k].walls.east <==> k == g.columns - 1)) &&
    |exits| == left &&
    (forall k :: 0 <= k < left ==> 0 <= exits[k] < left && RunExit(g, y, k, exits[k]))
  }

  /** The shape of a finished row depends only on the north and east walls in that row. */
  lemma SidewinderRowFrame(g: Grid, g': Grid, y: int)
    requires WellFormed(g) && WellFormed(g') && g'.rows == g.rows && g'.columns == g.columns && 0 <= y < g.rows
    requires forall k :: 0 <= k < g.columns ==>
      g'.cells[y][k].walls.north == g.cells[y][k].walls.north && g'.cells[y][k].walls.east == g.cells[y][k].walls.east
    requires SidewinderRow(g, y)
    ensures SidewinderRow(g', y)
  {
    if y > 0 {
      forall k | 0 <= k < g.columns ensures HasRunExit(g', y, k) {
        assert HasRunExit(g, y, k);
        var c :| 0 <= c < g.columns && RunExit(g, y, k, c);
        assert RunExit(g', y, k, c);
      }
    }
  }

  /** g' is g after a carve from p towards d, as far as north and east walls go. */
  predicate NorthEastAfter(g: Grid, g': Grid, p: Pos, d: OptionalDirection)
    requires WellFormed(g) && WellFormed(g')
  {
    g'.rows == g.rows && g'.columns == g.columns &&
    forall y, x :: 0 <= y < g.rows && 0 <= x < g.columns ==>
      g'.cells[y][x].walls.north == (g.cells[y][x].walls.north && !(Pos(x, y) == p && d == N)) &&
      g'.cells[y][x].walls.east == (g.cells[y][x].walls.east && !(Pos(x, y) == p && d == E))
  }

  lemma CarveNorthEastAfter(g: Grid, p: Pos, d: OptionalDirection)
    requires WellFormed(g) && (d == N || d == E || d == None)
    ensures WellFormed(Carve(g, p, d)) && NorthEastAfter(g, Carve(g, p, d), p, d)
  {
    forall y, x | 0 <= y < g.rows && 0 <= x < g.columns
      ensures Carve(g, p, d).cells[y][x].walls.north == (g.cells[y][x].walls.north && !(Pos(x, y) == p && d == N))
      ensures Carve(g, p, d).cells[y][x].walls.east == (g.cells[y][x].walls.east && !(Pos(x, y) == p && d == E))
    {
      CarveNorthEast(g, p, d, Pos(x, y));
    }
  }

  /** Carving through a standing wall of a symmetric grid with a closed border keeps both
      properties and opens one more passage. */
  lemma CarveThroughWall(g: Grid, p: Pos, d: Direction)
    requires WellFormed(g) && Symmetric(g) && BorderClosed(g)
    requires InBounds(g, p) && InBounds(g, Step(p, d)) && WallOn(WallsAt(g, p), d)
    ensures WellFormed(Carve(g, p, d)) && Symmetric(Carve(g, p, d)) && BorderClosed(Carve(g, p, d))
    ensures Passages(Carve(g, p, d)) == Passages(g) + 1
  {
    CarvePreservesSymmetry(g, p, d);
    CarvePreservesBorder(g, p, d);
    CarveAddsPassage(g, p, d);
  }

  /** A carve within row y leaves the finished rows above and the untouched rows below as they were. */
  lemma OtherRowsKept(g: Grid, g': Grid, p: Pos, d: OptionalDirection)
    requires WellFormed(g) && WellFormed(g') && NorthEastAfter(g, g', p, d) && 0 <= p.y < g.rows
    requires forall y' :: 0 <= y' < p.y ==> SidewinderRow(g, y')
    requires RowsUntouched(g, p.y + 1)
    ensures forall y' :: 0 <= y' < p.y ==> SidewinderRow(g', y')
    ensures RowsUntouched(g', p.y + 1)
  {
    forall y' | 0 <= y' < p.y ensures SidewinderRow(g', y') {
      SidewinderRowFrame(g, g', y');
    }
    forall y', x' | p.y + 1 <= y' < g.rows && 0 <= x' < g.columns ensures NorthEastClosed(g', x', y') {
      assert NorthEastClosed(g, x', y');
    }
  }

  /** The sidewinder at a cell that carves east: the cell joins the current run. */
  lemma SidewinderEast(g: Grid, g': Grid, x: int, y: int, left: int, exits: seq<int>)
    requires WellFormed(g) && WellFormed(g') && NorthEastAfter(g, g', Pos(x, y), E)
    requires SidewinderProgress(g, x, y, left, exits) && x < g.columns - 1
    ensures SidewinderProgress(g', x + 1, y, left, exits)
  {
    OtherRowsKept(g, g', Pos(x, y), E);
    forall k | 0 <= k < left ensures RunExit(g', y, k, exits[k]) {
      assert RunExit(g, y, k, exits[k]);
    }
    forall k | x + 1 <= k < g.columns ensures NorthEastClosed(g', k, y) {
      assert NorthEastClosed(g, k, y);
    }
    forall k | left <= k < x + 1
      ensures g'.cells[y][k].walls.north && (g'.cells[y][k].walls.east <==> k == g.columns - 1)
    {
      if k == x {
        assert NorthEastClosed(g, x, y);
      }
    }
  }

  /** The sidewinder at a cell that closes its run: a random cell c of the run [left, x]
      carves north, and every cell of the run records c as its exit. */
  lemma SidewinderNorth(g: Grid, g': Grid, x: int, y: int, left: int, exits: seq<int>, c: int, right: int)
    requires WellFormed(g) && WellFormed(g') && NorthEastAfter(g, g', Pos(c, y), N)
    requires SidewinderProgress(g, x, y, left, exits) && x < g.columns && y > 0
    requires left <= c <= x && right == x + 1
    ensures SidewinderProgress(g', x + 1, y, right, Extend(exits, right - left, c))
  {
    OtherRowsKept(g, g', Pos(c, y), N);
    forall k | x + 1 <= k < g.columns ensures NorthEastClosed(g', k, y) {
      assert NorthEastClosed(g, k, y);
    }
    var exits' := Extend(exits, right - left, c);
    assert !g'.cells[y][c].walls.north;
    forall k | 0 <= k < x + 1 ensures 0 <= exits'[k] < x + 1 && RunExit(g', y, k, exits'[k]) {
      if k < left {
        assert RunExit(g, y, k, exits[k]);
        assert exits'[k] == exits[k];
      } else {
        assert exits'[k] == c;
        if c <= k {
          assert EastOpenBetween(g', y, c, k);
        } else {
          assert EastOpenBetween(g', y, k, c);
        }
      }
    }
  }

  /** The current run's exits extended by n copies of c. */
  function Extend(exits: seq<int>, n: nat, c: int): (e: seq<int>)
    ensures |e| == |exits| + n
    ensures forall k :: 0 <= k < |exits| ==> e[k] == exits[k]
    ensures forall k :: |exits| <= k < |e| ==> e[k] == c
  {
    exits + seq(n, _ => c)
  }

  /** The state of the sidewinder's inner loop before the cell at (x, y). */
  predicate SidewinderLoop(g: Grid, x: int, y: int, left: int, exits: seq<int>)
  {
    Carving(g) && SidewinderProgress(g, x, y, left, exits) && Passages(g) == CarvedCount(g.columns, x, y)
  }

  /** The state of the sidewinder's outer loop before row y: rows above are done, rows
      from y on are untouched. */
  predicate SidewinderOuter(g: Grid, y: int)
  {
    Carving(g) && 0 <= y <= g.rows &&
    (forall y' :: 0 <= y' < y ==> SidewinderRow(g, y')) &&
    RowsUntouched(g, y) && Passages(g) == CarvedCount(g.columns, 0, y)
  }

  lemma SidewinderStart(g: Grid)
    requires WellFormed(g) && AllClosed(g)
    ensures SidewinderOuter(g, 0)
  {
    ClosedHasNoPassage(g);
    forall y, x, d: Direction | 0 <= y < g.rows && 0 <= x < g.columns
      ensures WallOn(g.cells[y][x].walls, d)
    {
    }
  }

  lemma SidewinderRowStart(g: Grid, y: int)
    requires SidewinderOuter(g, y) && y < g.rows
    ensures SidewinderLoop(g, 0, y, 0, [])
  {
  }

  /** At the end of a row every cell of the row has its run exit, so the row is done. */
  lemma SidewinderRowEnd(g: Grid, y: int, left: int, exits: seq<int>)
    requires SidewinderLoop(g, g.columns, y, left, exits)
    ensures SidewinderOuter(g, y + 1)
  {
    assert CarvedCount(g.columns, g.columns, y) == CarvedCount(g.columns, 0, y + 1) by {
      assert (y + 1) * g.columns == y * g.columns + g.columns;
    }
    if y > 0 {
      forall k | 0 <= k < g.columns ensures HasRunExit(g, y, k) {
        assert RunExit(g, y, k, exits[k]);
      }
    }
    assert SidewinderRow(g, y);
  }

  /** Once every row is done the grid has the sidewinder's shape and one passage fewer
      than it has cells. */
  lemma SidewinderDone(g: Grid)
    requires SidewinderOuter(g, g.rows)
    ensures SidewinderShape(g)
    ensures g.rows * g.columns > 0 ==> Passages(g) == g.rows * g.columns - 1
  {
  }

  /** One north step of the sidewinder: the run [left, x] is closed by opening north at
      one of its cells c. */
  lemma SidewinderNorthStep(g: Grid, g': Grid, x: int, y: int, left: int, exits: seq<int>, c: int, p: Pos, right: int)
    requires SidewinderLoop(g, x, y, left, exits) && x < g.columns && y > 0 && left <= c <= x
    requires p == Pos(c, y) && right == x + 1 && g' == Carve(g, p, N)
    ensures SidewinderLoop(g', x + 1, y, right, Extend(exits, right - left, c))
  {
    RunClosedNorth(g, x, y, left, exits, c);
    CarveThroughWall(g, p, N);
    CarveNorthEastAfter(g, p, N);
    SidewinderNorth(g, Carve(g, p, N), x, y, left, exits, c, right);
    CountStep(g.columns, x, y);
  }

  /** Any other step of the sidewinder: east within the row, or nothing at the top-right cell. */
  lemma SidewinderOtherStep(g: Grid, g': Grid, x: int, y: int, left: int, exits: seq<int>, p: Pos, d: OptionalDirection)
    requires SidewinderLoop(g, x, y, left, exits) && x < g.columns && p == Pos(x, y)
    requires (d == E && x < g.columns - 1) || (d == None && x == g.columns - 1 && y == 0)
    requires g' == Carve(g, p, d)
    ensures SidewinderLoop(g', x + 1, y, left, exits)
  {
    CountStep(g.columns, x, y);
    if d == E {
      SidewinderEastStep(g, g', x, y, left, exits, p);
    } else {
      SidewinderLastStep(g, g', x, y, left, exits, p);
    }
  }

  /** Carving east inside a row keeps the carving invariants, extends the run and opens one passage. */
  lemma SidewinderEastStep(g: Grid, g': Grid, x: int, y: int, left: int, exits: seq<int>, p: Pos)
    requires SidewinderLoop(g, x, y, left, exits) && x < g.columns - 1 && p == Pos(x, y)
    requires g' == Carve(g, p, E)
    ensures Carving(g') && g'.columns == g.columns
    ensures SidewinderProgress(g', x + 1, y, left, exits) && Passages(g') == Passages(g) + 1
  {
    assert NorthEastClosed(g, x, y);
    CarveThroughWall(g, p, E);
    CarveNorthEastAfter(g, p, E);
    SidewinderEast(g, g', x, y, left, exits);
  }

  /** The top-right cell carves nothing: the maze is unchanged and the row is done. */
  lemma SidewinderLastStep(g: Grid, g': Grid, x: int, y: int, left: int, exits: seq<int>, p: Pos)
    requires SidewinderLoop(g, x, y, left, exits) && x == g.columns - 1 && y == 0 && p == Pos(x, y)
    requires g' == Carve(g, p, None)
    ensures g' == g && SidewinderProgress(g, x + 1, y, left, exits)
  {
    CarveNone(g, p);
    assert NorthEastClosed(g, x, y);
  }

  lemma CountStep(columns: nat, x: nat, y: nat)
    requires x < columns
    ensures CarvedCount(columns, x + 1, y) == CarvedCount(columns, x, y) + (if y == 0 && x == columns - 1 then 0 else 1)
  {
  }

  /** The run [left, x] is still closed to the north. */
  lemma RunClosedNorth(g: Grid, x: int, y: int, left: int, exits: seq<int>, c: int)
    requires WellFormed(g) && SidewinderProgress(g, x, y, left, exits) && x < g.columns && left <= c <= x
    ensures WallOn(WallsAt(g, Pos(c, y)), N)
  {
    if c == x {
      assert NorthEastClosed(g, x, y);
    }
  }

  /** One pass of the sidewinder's inner loop, at the cell in column x of row y: the run
      grows to [left, x]; carving north closes it and starts the next run after x. */
  method SidewinderCell(maze: Maze, row: seq<Cell>, x: int, y: int, left: int, right: int, ghost exits: seq<int>, r: Prng, bias: real)
    returns (left': int, right': int, ghost exits': seq<int>, ghost candidate: int)
    requires |row| == maze.columns && forall k :: 0 <= k < |row| ==> row[k].x == k && row[k].y == y
    requires 0 <= x < maze.columns && right == x
    requires SidewinderLoop(maze.Snapshot(), x, y, left, exits)
    modifies maze, r
    ensures right' == x + 1
    ensures left' == left || (left' == right' && left <= candidate < right')
    ensures SidewinderLoop(maze.Snapshot(), x + 1, y, left', exits')
  {
    ghost var g := maze.Snapshot();
    var cell := Pos(row[x].x, row[x].y);
    right' := right + 1;
    left' := left;
    exits' := exits;
    candidate := left;
    var dir := ChooseDirection(cell.y == 0, cell.x == maze.columns - 1, r, bias);
    if dir == N {
      var k := r.RandBelow(right' - left);
      var c := left + k;
      candidate := c;
      cell := Pos(row[c].x, row[c].y);
      assert maze.Snapshot() == g;
      CarvePath(cell, maze, dir);
      SidewinderNorthStep(g, maze.Snapshot(), x, y, left, exits, candidate, cell, right');
      exits' := Extend(exits, right' - left, candidate);
      left' := right';
      assert left <= candidate < right';
    } else {
      assert maze.Snapshot() == g;
      CarvePath(cell, maze, dir);
      SidewinderOtherStep(g, maze.Snapshot(), x, y, left, exits, cell, dir);
    }
  }

  /** generate_maze_sidewinder: row by row, each cell either extends the current run
      east or, with probability 1 - bias (always in the right column), closes the run by
      opening north from one of the run's cells chosen at random. The top row is a corridor. */
  method GenerateMazeSidewinder(cols: nat, rows: nat, r: Prng, bias: real) returns (maze: Maze)
    modifies r
    ensures fresh(maze) && maze.Valid()
    ensures maze.rows == rows && maze.columns == cols
    ensures Symmetric(maze.Snapshot()) && BorderClosed(maze.Snapshot())
    ensures SidewinderShape(maze.Snapshot())
    ensures rows * cols > 0 ==> Passages(maze.Snapshot()) == rows * cols - 1
  {
    maze := new Maze(rows, cols);
    SidewinderStart(maze.Snapshot());
    var y := 0;
    while y < |maze.cells|
      invariant maze.rows == rows && maze.columns == cols
      invariant SidewinderOuter(maze.Snapshot(), y)
    {
      var row := maze.cells[y];
      var left := 0;
      var right := left;
      ghost var exits: seq<int> := [];
      SidewinderRowStart(maze.Snapshot(), y);
      var x := 0;
      while x < |row|
        invariant maze.rows == rows && maze.columns == cols
        invariant |row| == cols && forall k :: 0 <= k < cols ==> row[k].x == k && row[k].y == y
        invariant right == x
        invariant SidewinderLoop(maze.Snapshot(), x, y, left, exits)
      {
        ghost var candidate;
        left, right, exits, candidate := SidewinderCell(maze, row, x, y, left, right, exits, r, bias);
        x := x + 1;
      }
      SidewinderRowEnd(maze.Snapshot(), y, left, exits);
      y := y + 1;
    }
    SidewinderDone(maze.Snapshot());
  }

  // ---------------------------------------------------------------------------
  // Random walk

  /** How a random walk ends. In the source a start cell off the grid makes the walk
      fail on its first use of the cell; running out of fuel stands for a walk that has
      not yet visited every cell. */
  datatype WalkOutcome = Finished | StartOffGrid | OutOfFuel

  /** All four walls of the cell at p still stand. */
  predicate Sealed(g: Grid, p: Pos)
    requires WellFormed(g) && InBounds(g, p)
  {
    WallsAt(g, p) == Walls(true, true, true, true)
  }

  /** The state of the random walk: it stands on a visited cell, the visited cells are
      on the grid, every cell not yet visited is sealed, and the visited cells are joined
      by one passage fewer than there are of them. */
  ghost predicate WalkLoop(g: Grid, current: Pos, visited: set<Pos>)
  {
    Carving(g) && current in visited &&
    (forall q :: q in visited ==> InBounds(g, q)) &&
    (forall q :: InBounds(g, q) && q !in visited ==> Sealed(g, q)) &&
    Passages(g) == |visited| - 1
  }

  lemma WalkStart(g: Grid, start: Pos)
    requires WellFormed(g) && AllClosed(g) && InBounds(g, start)
    ensures WalkLoop(g, start, {start})
  {
    ClosedHasNoPassage(g);
    forall y, x, d: Direction | 0 <= y < g.rows && 0 <= x < g.columns
      ensures WallOn(g.cells[y][x].walls, d)
    {
    }
    forall q | InBounds(g, q) ensures Sealed(g, q) {
      var w := g.cells[q.y][q.x].walls;
      assert w.north && w.south && w.west && w.east;
    }
  }

  /** A step of the walk onto a cell not yet visited: the wall between the two cells
      stands, carving it keeps the grid symmetric with a closed border, and the new cell
      joins the visited ones with one more passage. */
  lemma WalkCarveStep(g: Grid, g': Grid, current: Pos, visited: set<Pos>, d: Direction)
    requires WalkLoop(g, current, visited)
    requires InBounds(g, Step(current, d)) && Step(current, d) !in visited
    requires g' == Carve(g, current, d)
    ensures WalkLoop(g', Step(current, d), visited + {Step(current, d)})
  {
    var next := Step(current, d);
    assert Sealed(g, next);
    assert WallOn(WallsAt(g, next), Opposite(d)) by {
      match d
      case N =>
      case E =>
      case S =>
      case W =>
    }
    SymmetricFacing(g, current, d);
    CarveThroughWall(g, current, d);
    forall q | InBounds(g', q) && q !in visited + {next} ensures Sealed(g', q) {
      CarveKeepsSealed(g, current, d, q);
    }
  }

  /** A carve leaves every cell other than its two ends as it was. */
  lemma CarveKeepsSealed(g: Grid, p: Pos, d: Direction, q: Pos)
    requires WellFormed(g) && InBounds(g, q) && Sealed(g, q) && q != p && q != Step(p, d)
    ensures Sealed(Carve(g, p, d), q)
  {
    forall d': Direction ensures WallOn(WallsAt(Carve(g, p, d), q), d') {
      CarveExactly(g, p, d, q, d');
    }
  }

  /** Once the walk has visited as many cells as the grid has, it has visited them all
      and opened one passage fewer. */
  lemma WalkDone(g: Grid, current: Pos, visited: set<Pos>)
    requires WalkLoop(g, current, visited) && |visited| >= g.rows * g.columns
    ensures visited == AllCells(g.rows, g.columns)
    ensures Passages(g) == g.rows * g.columns - 1
  {
    FullSubsetIsAll(g, visited);
    AllCellsSize(g.rows, g.columns);
  }

  /** The walk of generate_maze_random_walk from start, over a maze whose walls all
      stand, until size cells are visited; fuel bounds the number of steps. */
  method RandomWalk(maze: Maze, start: Pos, size: nat, r: Prng, fuel: nat) returns (outcome: WalkOutcome)
    requires maze.Valid() && AllClosed(maze.Snapshot()) && InBounds(maze.Snapshot(), start)
    requires size == maze.rows * maze.columns
    modifies maze, r
    ensures maze.Valid() && Symmetric(maze.Snapshot()) && BorderClosed(maze.Snapshot())
    ensures outcome == Finished || outcome == OutOfFuel
    ensures outcome == Finished ==> Passages(maze.Snapshot()) == size - 1
  {
    var current := start;
    var visited: set<Pos> := {current};
    WalkStart(maze.Snapshot(), start);
    var steps := 0;
    while |visited| < size
      invariant steps <= fuel
      invariant WalkLoop(maze.Snapshot(), current, visited)
      decreases fuel - steps
    {
      if steps == fuel {
        return OutOfFuel;
      }
      var options := NoclipDirectionsFor(current, maze);
      var dir := r.Choice(options);
      var next := MoveDir(current, maze, dir);
      var isNew := next !in visited;
      if isNew {
        ghost var g := maze.Snapshot();
        CarvePath(current, maze, dir);
        WalkCarveStep(g, maze.Snapshot(), current, visited, dir);
        visited := visited + {next};
      }
      current := next;
      steps := steps + 1;
    }
    WalkDone(maze.Snapshot(), current, visited);
    outcome := Finished;
  }

  /** Whether the start the walk draws, x below width and y below height, is a cell of
      the maze generate_maze_random_walk builds, which has width rows and height columns. */
  predicate SwappedStartOnGrid(width: nat, height: nat, x: nat, y: nat)
  {
    y < width && x < height
  }

  /** Every start the walk can draw lies on its maze exactly when the maze is square. */
  lemma SwappedStartAlwaysOnGrid(width: nat, height: nat)
    requires width > 0 && height > 0
    ensures (forall x: nat, y: nat :: x < width && y < height ==> SwappedStartOnGrid(width, height, x, y)) <==> width == height
  {
    if width < height {
      assert !SwappedStartOnGrid(width, height, 0, width);
    } else if width > height {
      assert !SwappedStartOnGrid(width, height, height, 0);
    }
  }

  /** generate_maze_random_walk as written: the maze is Maze(width, height), so it has
      width rows of height cells, while the start cell is read at [y_start][x_start]
      with x_start below width and y_start below height. */
  method GenerateMazeRandomWalk(width: nat, height: nat, r: Prng, fuel: nat) returns (maze: Maze, outcome: WalkOutcome)
    requires width > 0 && height > 0
    modifies r
    ensures fresh(maze) && maze.Valid()
    ensures maze.rows == width && maze.columns == height
    ensures Symmetric(maze.Snapshot()) && BorderClosed(maze.Snapshot())
    ensures outcome == StartOffGrid ==> width != height
    ensures outcome == Finished ==> Passages(maze.Snapshot()) == width * height - 1
  {
    maze := new Maze(width, height);
    var xStart := r.RandBelow(width);
    var yStart := r.RandBelow(height);
    if !SwappedStartOnGrid(width, height, xStart, yStart) {
      ClosedIsCarving(maze.Snapshot());
      return maze, StartOffGrid;
    }
    var size := width * height;
    outcome := RandomWalk(maze, Pos(xStart, yStart), size, r, fuel);
  }

  /** generate_maze_random_walk with the maze built as Maze(height, width): every start
      it draws is on the grid. */
  method GenerateMazeRandomWalkCorrected(width: nat, height: nat, r: Prng, fuel: nat) returns (maze: Maze, outcome: WalkOutcome)
    requires width > 0 && height > 0
    modifies r
    ensures fresh(maze) && maze.Valid()
    ensures maze.rows == height && maze.columns == width
    ensures Symmetric(maze.Snapshot()) && BorderClosed(maze.Snapshot())
    ensures outcome == Finished || outcome == OutOfFuel
    ensures outcome == Finished ==> Passages(maze.Snapshot()) == width * height - 1
  {
    maze := new Maze(height, width);
    var xStart := r.RandBelow(width);
    var yStart := r.RandBelow(height);
    var size := width * height;
    outcome := RandomWalk(maze, Pos(xStart, yStart), size, r, fuel);
  }

  /** A grid whose walls all stand is symmetric with a closed border. */
  lemma ClosedIsCarving(g: Grid)
    requires WellFormed(g) && AllClosed(g)
    ensures Carving(g)
  {
    forall y, x, d: Direction | 0 <= y < g.rows && 0 <= x < g.columns
      ensures WallOn(g.cells[y][x].walls, d)
    {
    }
  }
}

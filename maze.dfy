/** The maze object of src/maze/types.ts and the operations on it: construction,
    deep copy, carving a passage, the boundary-aware queries and cell keys.
    A cell is referred to by its coordinates (GridModel.Pos); its wall flags live
    in the maze's cells, which carving replaces. */
module MazeTypes {
  import opened GridModel

  /** A rectangular maze: rows x columns cells stored as cells[y][x]. */
  class Maze {
    const rows: nat
    const columns: nat
    var cells: seq<seq<Cell>>

    /** The value the maze holds now. */
    function Snapshot(): Grid
      reads this
    {
      Grid(rows, columns, cells)
    }

    ghost predicate Valid()
      reads this
    {
      WellFormed(Snapshot())
    }

    /** Maze(rows, columns): every cell present, at its own coordinates, with all four walls standing. */
    constructor (rows: nat, columns: nat)
      ensures this.rows == rows && this.columns == columns
      ensures Valid() && AllClosed(Snapshot())
    {
      this.rows := rows;
      this.columns := columns;
      cells := seq(rows, y requires 0 <= y < rows => seq(columns, x requires 0 <= x < columns => NewCell(x, y)));
    }

    /** Replaces the walls of the cell at q, leaving every other cell as it was. */
    method SetWalls(q: Pos, w: Walls)
      requires Valid() && InBounds(Snapshot(), q)
      modifies this
      ensures Valid()
      ensures Snapshot() == WithWalls(old(Snapshot()), q, w)
    {
      cells := cells[q.y := cells[q.y][q.x := cells[q.y][q.x].(walls := w)]];
    }
  }

  /** copy_maze: a new maze object with the same dimensions and the same wall flags. */
  method CopyMaze(maze: Maze) returns (copy: Maze)
    ensures fresh(copy)
    ensures copy.Snapshot() == maze.Snapshot()
  {
    copy := new Maze(maze.rows, maze.columns);
    copy.cells := maze.cells;
  }

  /** carve_path: opens the wall of the cell facing the direction and the opposite
      wall of the neighbour there; "None" does nothing. The neighbour must exist. */
  method CarvePath(cell: Pos, maze: Maze, direction: OptionalDirection)
    requires maze.Valid()
    requires InBounds(maze.Snapshot(), cell) && InBounds(maze.Snapshot(), Step(cell, direction))
    modifies maze
    ensures maze.Valid()
    ensures maze.Snapshot() == Carve(old(maze.Snapshot()), cell, direction)
  {
    ghost var g := maze.Snapshot();
    match direction {
      case N =>
        maze.SetWalls(cell, maze.cells[cell.y][cell.x].walls.(north := false));
        maze.SetWalls(Pos(cell.x, cell.y - 1), maze.cells[cell.y - 1][cell.x].walls.(south := false));
      case S =>
        maze.SetWalls(cell, maze.cells[cell.y][cell.x].walls.(south := false));
        maze.SetWalls(Pos(cell.x, cell.y + 1), maze.cells[cell.y + 1][cell.x].walls.(north := false));
      case E =>
        maze.SetWalls(cell, maze.cells[cell.y][cell.x].walls.(east := false));
        maze.SetWalls(Pos(cell.x + 1, cell.y), maze.cells[cell.y][cell.x + 1].walls.(west := false));
      case W =>
        maze.SetWalls(cell, maze.cells[cell.y][cell.x].walls.(west := false));
        maze.SetWalls(Pos(cell.x - 1, cell.y), maze.cells[cell.y][cell.x - 1].walls.(east := false));
      case None =>
        CarveNone(g, cell);
    }
    if direction != None {
      CarveAsUpdates(g, cell, direction);
    }
  }

  /** Which borders of the maze a cell lies on. */
  datatype EdgeFlags = EdgeFlags(isLeftEdge: bool, isTopEdge: bool, isRightEdge: bool, isBottomEdge: bool)

  /** edge_conditions: for a cell of the maze, each flag says that the step across that border leaves the grid. */
  function EdgeConditions(cell: Pos, maze: Maze): (e: EdgeFlags)
    reads maze
    ensures InBounds(maze.Snapshot(), cell) ==>
      (e.isLeftEdge <==> !InBounds(maze.Snapshot(), Step(cell, W))) &&
      (e.isTopEdge <==> !InBounds(maze.Snapshot(), Step(cell, N))) &&
      (e.isRightEdge <==> !InBounds(maze.Snapshot(), Step(cell, E))) &&
      (e.isBottomEdge <==> !InBounds(maze.Snapshot(), Step(cell, S)))
  {
    EdgeFlags(cell.x == 0, cell.y == 0, cell.x == maze.columns - 1, cell.y == maze.rows - 1)
  }

  /** A JavaScript Set of directions filled with N, E, S, W in that order and only ever
      deleted from: membership flags, iterated in insertion order. */
  datatype DirectionSet = DirectionSet(n: bool, e: bool, s: bool, w: bool)
  {
    function Delete(d: Direction): DirectionSet
    {
      if d == N then this.(n := false)
      else if d == E then this.(e := false)
      else if d == S then this.(s := false)
      else this.(w := false)
    }

    /** The spread [...set]: the members in insertion order. */
    function Elements(): seq<Direction>
    {
      Keep(n, N) + Keep(e, E) + Keep(s, S) + Keep(w, W)
    }
  }

  /** noclip_directions_for: starts from the set {N, E, S, W} and deletes the direction
      across each border the cell lies on. The result lists, in the order N, E, S, W and
      each once, exactly the directions whose step stays on the grid, and it is never
      empty on a grid of more than one cell. */
  method NoclipDirectionsFor(cell: Pos, maze: Maze) returns (options: seq<Direction>)
    requires InBounds(maze.Snapshot(), cell)
    ensures options == OnGridDirections(maze.Snapshot(), cell)
    ensures forall d: Direction :: d in options <==> InBounds(maze.Snapshot(), Step(cell, d))
    ensures IsSubsequence(options, CompassOrder)
    ensures maze.rows * maze.columns > 1 ==> options != []
  {
    var e := EdgeConditions(cell, maze);
    var set_ := DirectionSet(true, true, true, true);
    if e.isTopEdge { set_ := set_.Delete(N); }
    if e.isBottomEdge { set_ := set_.Delete(S); }
    if e.isRightEdge { set_ := set_.Delete(E); }
    if e.isLeftEdge { set_ := set_.Delete(W); }
    options := set_.Elements();
    OnGridDirectionsSpec(maze.Snapshot(), cell);
  }

  /** move_dir: the cell one step away in the given direction, looked up in the maze;
      for "None", the cell itself. */
  function MoveDir(cell: Pos, maze: Maze, direction: OptionalDirection): (r: Pos)
    reads maze
    requires maze.Valid()
    requires direction != None ==> InBounds(maze.Snapshot(), Step(cell, direction))
    ensures r == Step(cell, direction)
    ensures direction != None ==> InBounds(maze.Snapshot(), r)
  {
    match direction
    case N => var c := maze.cells[cell.y - 1][cell.x]; Pos(c.x, c.y)
    case S => var c := maze.cells[cell.y + 1][cell.x]; Pos(c.x, c.y)
    case E => var c := maze.cells[cell.y][cell.x + 1]; Pos(c.x, c.y)
    case W => var c := maze.cells[cell.y][cell.x - 1]; Pos(c.x, c.y)
    case None => cell
  }

  /** The stored cell at (x, y), as a reference. */
  function CellAt(maze: Maze, x: int, y: int): (r: Pos)
    reads maze
    requires maze.Valid() && InBounds(maze.Snapshot(), Pos(x, y))
    ensures r == Pos(x, y)
  {
    var c := maze.cells[y][x];
    Pos(c.x, c.y)
  }

  /** adjacent_cells: the on-grid cells next to the cell, in the order W, E, N, S,
      whatever the walls. */
  method AdjacentCells(cell: Pos, maze: Maze) returns (results: seq<Pos>)
    requires maze.Valid() && InBounds(maze.Snapshot(), cell)
    ensures results == AdjacentOf(maze.Snapshot(), cell)
    ensures forall q :: q in results <==> InBounds(maze.Snapshot(), q) && Adjacent(cell, q)
    ensures |results| <= 4
  {
    ghost var g := maze.Snapshot();
    ghost var w, east, n, s :=
      Keep(InBounds(g, Step(cell, W)), Step(cell, W)), Keep(InBounds(g, Step(cell, E)), Step(cell, E)),
      Keep(InBounds(g, Step(cell, N)), Step(cell, N)), Keep(InBounds(g, Step(cell, S)), Step(cell, S));
    assert AdjacentOf(g, cell) == w + east + n + s;
    results := [];
    var e := EdgeConditions(cell, maze);
    if !e.isLeftEdge {
      results := results + [CellAt(maze, cell.x - 1, cell.y)];
    }
    assert results == w;
    if !e.isRightEdge {
      results := results + [CellAt(maze, cell.x + 1, cell.y)];
    }
    assert results == w + east;
    if !e.isTopEdge {
      results := results + [CellAt(maze, cell.x, cell.y - 1)];
    }
    assert results == w + east + n;
    if !e.isBottomEdge {
      results := results + [CellAt(maze, cell.x, cell.y + 1)];
    }
    assert results == w + east + n + s;
    AdjacentOfSpec(g, cell);
  }

  /** neighbors: the on-grid cells next to the cell whose wall on the cell's own side
      is open, in the order W, E, N, S; a subsequence of adjacent_cells. */
  method Neighbors(cell: Pos, maze: Maze) returns (results: seq<Pos>)
    requires maze.Valid() && InBounds(maze.Snapshot(), cell)
    ensures results == OpenNeighborsOf(maze.Snapshot(), cell)
    ensures forall q :: q in results <==> exists d: Direction :: q == Step(cell, d) && OpenSide(maze.Snapshot(), cell, d)
    ensures IsSubsequence(results, AdjacentOf(maze.Snapshot(), cell))
    ensures |results| <= 4
  {
    ghost var g := maze.Snapshot();
    ghost var w, east, n, s :=
      Keep(OpenSide(g, cell, W), Step(cell, W)), Keep(OpenSide(g, cell, E), Step(cell, E)),
      Keep(OpenSide(g, cell, N), Step(cell, N)), Keep(OpenSide(g, cell, S), Step(cell, S));
    assert OpenNeighborsOf(g, cell) == w + east + n + s;
    results := [];
    var e := EdgeConditions(cell, maze);
    var walls := maze.cells[cell.y][cell.x].walls;
    assert walls == WallsAt(g, cell);
    if !e.isLeftEdge && !walls.west {
      results := results + [CellAt(maze, cell.x - 1, cell.y)];
    }
    assert results == w;
    if !e.isRightEdge && !walls.east {
      results := results + [CellAt(maze, cell.x + 1, cell.y)];
    }
    assert results == w + east;
    if !e.isTopEdge && !walls.north {
      results := results + [CellAt(maze, cell.x, cell.y - 1)];
    }
    assert results == w + east + n;
    if !e.isBottomEdge && !walls.south {
      results := results + [CellAt(maze, cell.x, cell.y + 1)];
    }
    assert results == w + east + n + s;
    OpenNeighborsOfMembers(g, cell);
    OpenNeighborsOfSubsequence(g, cell);
  }

  // ---------------------------------------------------------------------------
  // Cell keys

  /** The decimal digit of 0 <= k < 10. */
  function Digit(k: int): (c: char)
    requires 0 <= k < 10
    ensures '0' <= c <= '9'
  {
    (k + '0' as int) as char
  }

  /** The decimal numeral of n, without leading zeros. */
  function NatToString(n: nat): (s: string)
    ensures |s| >= 1
    ensures forall i :: 0 <= i < |s| ==> '0' <= s[i] <= '9'
  {
    if n < 10 then [Digit(n)] else NatToString(n / 10) + [Digit(n % 10)]
  }

  /** The numeral JavaScript writes for an integer: a minus sign, then the digits. */
  function IntToString(n: int): string
  {
    if n < 0 then "-" + NatToString(-n) else NatToString(n)
  }

  /** cell_id: the key "x:y" of a cell. It begins with a digit or a minus sign,
      which no key a caller reserves (such as "max") does. */
  function CellId(cell: Pos): (id: string)
    ensures |id| >= 3
    ensures id[0] == '-' || '0' <= id[0] <= '9'
  {
    IntToString(cell.x) + ":" + IntToString(cell.y)
  }

  lemma {:induction false} NatToStringInjective(a: nat, b: nat)
    requires NatToString(a) == NatToString(b)
    ensures a == b
  {
    var sa, sb := NatToString(a), NatToString(b);
    if a < 10 && b < 10 {
      assert sa[0] == sb[0];
    } else if a >= 10 && b >= 10 {
      assert sa[..|sa| - 1] == NatToString(a / 10);
      assert sb[..|sb| - 1] == NatToString(b / 10);
      NatToStringInjective(a / 10, b / 10);
      assert sa[|sa| - 1] == sb[|sb| - 1];
    }
  }

  lemma {:induction false} IntToStringInjective(a: int, b: int)
    requires IntToString(a) == IntToString(b)
    ensures a == b
  {
    var sa, sb := IntToString(a), IntToString(b);
    NumeralStartsWithDigit(if a < 0 then -a else a);
    NumeralStartsWithDigit(if b < 0 then -b else b);
    if a < 0 && b < 0 {
      assert sa[1..] == NatToString(-a) && sb[1..] == NatToString(-b);
      NatToStringInjective(-a, -b);
    } else if a >= 0 && b >= 0 {
      NatToStringInjective(a, b);
    }
  }

  lemma NumeralStartsWithDigit(n: nat)
    ensures '0' <= NatToString(n)[0] <= '9'
  {
  }

  lemma {:induction false} SplitAtColon(s1: string, t1: string, s2: string, t2: string)
    requires ':' !in s1 && ':' !in s2
    requires s1 + ":" + t1 == s2 + ":" + t2
    ensures s1 == s2 && t1 == t2
  {
    var u := s1 + ":" + t1;
    assert forall i :: 0 <= i < |s1| ==> u[i] == s1[i];
    assert forall i :: 0 <= i < |s2| ==> u[i] == s2[i];
    assert u[|s1|] == ':' && u[|s2|] == ':';
    assert |s1| == |s2|;
    assert s1 == u[..|s1|] == s2;
    assert t1 == u[|s1| + 1..] == t2;
  }

  lemma NoColonInNumeral(n: int)
    ensures ':' !in IntToString(n)
  {
  }

  /** Distinct cells have distinct keys, and no cell key is the reserved key "max". */
  lemma {:induction false} CellIdInjective(p: Pos, q: Pos)
    ensures CellId(p) == CellId(q) <==> p == q
    ensures CellId(p) != "max"
  {
    NoColonInNumeral(p.x);
    NoColonInNumeral(q.x);
    if CellId(p) == CellId(q) {
      SplitAtColon(IntToString(p.x), IntToString(p.y), IntToString(q.x), IntToString(q.y));
      IntToStringInjective(p.x, q.x);
      IntToStringInjective(p.y, q.y);
    }
    assert CellId(p)[|IntToString(p.x)|] == ':';
    assert ':' !in "max";
  }
}

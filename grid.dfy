/** The value-level view of a maze: cells with four wall flags laid out in rows,
    the directions one can step in, carving, and the counts and invariants that
    the generators maintain. Everything here is pure; the mutable Maze object
    lives in module MazeTypes and is specified through these definitions. */
module GridModel {

  /** The four wall flags of a cell; true means the wall stands (the passage is closed). */
  datatype Walls = Walls(north: bool, south: bool, west: bool, east: bool)

  /** A cell: its column x, its row y and its walls. */
  datatype Cell = Cell(x: int, y: int, walls: Walls)

  /** The four compass directions and the no-op "None". */
  datatype OptionalDirection = N | E | S | W | None

  /** A real direction: one of N, E, S, W. */
  type Direction = d: OptionalDirection | d != None witness N

  /** A reference to a cell of a maze, by its coordinates (column x, row y). */
  datatype Pos = Pos(x: int, y: int)

  /** The value held by a Maze: its dimensions and its cells, stored as cells[y][x]. */
  datatype Grid = Grid(rows: nat, columns: nat, cells: seq<seq<Cell>>)

  /** The cell the constructor Cell(x, y) builds: all four walls standing. */
  function NewCell(x: int, y: int): (c: Cell)
    ensures c.x == x && c.y == y
    ensures c.walls.north && c.walls.south && c.walls.west && c.walls.east
  {
    Cell(x, y, Walls(true, true, true, true))
  }

  /** Coordinate arithmetic of a step: y grows southwards, x grows eastwards. */
  function Step(p: Pos, d: OptionalDirection): Pos
  {
    match d
    case N => Pos(p.x, p.y - 1)
    case S => Pos(p.x, p.y + 1)
    case E => Pos(p.x + 1, p.y)
    case W => Pos(p.x - 1, p.y)
    case None => p
  }

  /** The direction that leads back. */
  function Opposite(d: Direction): (o: Direction)
    ensures Step(Step(Pos(0, 0), d), o) == Pos(0, 0)
  {
    if d == N then S else if d == S then N else if d == E then W else E
  }

  /** The flag of the wall facing d. */
  function WallOn(w: Walls, d: Direction): bool
  {
    if d == N then w.north else if d == S then w.south else if d == E then w.east else w.west
  }

  /** w with the wall facing d knocked down. */
  function Opened(w: Walls, d: Direction): (r: Walls)
    ensures !WallOn(r, d)
  {
    if d == N then w.(north := false)
    else if d == S then w.(south := false)
    else if d == E then w.(east := false)
    else w.(west := false)
  }

  predicate InBounds(g: Grid, p: Pos)
  {
    0 <= p.x < g.columns && 0 <= p.y < g.rows
  }

  /** rows rows of columns cells each; the cell stored at [y][x] has coordinates (x, y). */
  predicate WellFormed(g: Grid)
  {
    |g.cells| == g.rows &&
    (forall y :: 0 <= y < g.rows ==> |g.cells[y]| == g.columns) &&
    (forall y, x :: 0 <= y < g.rows && 0 <= x < g.columns ==> g.cells[y][x].x == x && g.cells[y][x].y == y)
  }

  /** The walls of the cell at p. */
  function WallsAt(g: Grid, p: Pos): Walls
    requires WellFormed(g) && InBounds(g, p)
  {
    g.cells[p.y][p.x].walls
  }

  /** Every wall is standing. */
  predicate AllClosed(g: Grid)
    requires WellFormed(g)
  {
    forall y, x :: 0 <= y < g.rows && 0 <= x < g.columns ==>
      var w := g.cells[y][x].walls; w.north && w.south && w.west && w.east
  }

  /** Every pair of horizontally or vertically adjacent cells agrees on their shared wall. */
  predicate Symmetric(g: Grid)
    requires WellFormed(g)
  {
    (forall y, x :: 0 <= y < g.rows && 0 <= x < g.columns - 1 ==>
      g.cells[y][x].walls.east == g.cells[y][x + 1].walls.west) &&
    (forall y, x :: 0 <= y < g.rows - 1 && 0 <= x < g.columns ==>
      g.cells[y][x].walls.south == g.cells[y + 1][x].walls.north)
  }

  /** No passage leads off the grid: every wall on the outer border stands. */
  predicate BorderClosed(g: Grid)
    requires WellFormed(g)
  {
    forall y, x, d: Direction :: 0 <= y < g.rows && 0 <= x < g.columns && !InBounds(g, Step(Pos(x, y), d)) ==>
      WallOn(g.cells[y][x].walls, d)
  }

  /** The symmetric form of the wall agreement, phrased with Step and Opposite. */
  lemma SymmetricFacing(g: Grid, p: Pos, d: Direction)
    requires WellFormed(g) && Symmetric(g)
    requires InBounds(g, p) && InBounds(g, Step(p, d))
    ensures WallOn(WallsAt(g, p), d) == WallOn(WallsAt(g, Step(p, d)), Opposite(d))
  {
  }

  // ---------------------------------------------------------------------------
  // Carving

  /** The walls of the cell at q once the wall of p facing d, and the matching
      wall of the neighbour in direction d, are knocked down. */
  function CarvedWalls(w: Walls, q: Pos, p: Pos, d: OptionalDirection): Walls
  {
    if d == None then w
    else if q == p then Opened(w, d)
    else if q == Step(p, d) then Opened(w, Opposite(d))
    else w
  }

  /** The grid after carving from p towards d: every cell keeps its coordinates,
      and its walls are those of CarvedWalls. */
  function Carve(g: Grid, p: Pos, d: OptionalDirection): (r: Grid)
    ensures r.rows == g.rows && r.columns == g.columns
    ensures WellFormed(g) ==> WellFormed(r)
  {
    var cells := seq(|g.cells|, y requires 0 <= y < |g.cells| =>
      seq(|g.cells[y]|, x requires 0 <= x < |g.cells[y]| =>
        g.cells[y][x].(walls := CarvedWalls(g.cells[y][x].walls, Pos(x, y), p, d))));
    Grid(g.rows, g.columns, cells)
  }

  /** Carving clears exactly the wall of p facing d and the opposite wall of the
      neighbour; every other flag of every cell is unchanged, and "None" changes nothing. */
  lemma CarveExactly(g: Grid, p: Pos, d: OptionalDirection, q: Pos, d': Direction)
    requires WellFormed(g) && InBounds(g, q)
    ensures WallOn(WallsAt(Carve(g, p, d), q), d') ==
      (WallOn(WallsAt(g, q), d') &&
       !(d != None && ((q == p && d' == d) || (q == Step(p, d) && d' == Opposite(d)))))
  {
  }

  /** The north and east flags after a carve: only the carving cell's own flag facing
      the direction, or the neighbour's flag facing back, is knocked down. */
  lemma CarveNorthEast(g: Grid, p: Pos, d: OptionalDirection, q: Pos)
    requires WellFormed(g) && InBounds(g, q)
    ensures WallsAt(Carve(g, p, d), q).north ==
      (WallsAt(g, q).north && !(q == p && d == N) && !(d == S && q == Step(p, d)))
    ensures WallsAt(Carve(g, p, d), q).east ==
      (WallsAt(g, q).east && !(q == p && d == E) && !(d == W && q == Step(p, d)))
  {
    CarveExactly(g, p, d, q, N);
    CarveExactly(g, p, d, q, E);
  }

  /** Carving towards "None" leaves the grid as it was. */
  lemma {:induction false} CarveNone(g: Grid, p: Pos)
    requires WellFormed(g)
    ensures Carve(g, p, None) == g
  {
    var r := Carve(g, p, None);
    assert |r.cells| == |g.cells|;
    forall y | 0 <= y < |g.cells| ensures r.cells[y] == g.cells[y] {
      assert |r.cells[y]| == |g.cells[y]|;
      forall x | 0 <= x < |g.cells[y]| ensures r.cells[y][x] == g.cells[y][x] {
      }
    }
  }

  /** Carving between two in-bounds neighbours keeps every shared wall in agreement. */
  lemma {:induction false} CarvePreservesSymmetry(g: Grid, p: Pos, d: OptionalDirection)
    requires WellFormed(g) && Symmetric(g)
    requires InBounds(g, p) && InBounds(g, Step(p, d))
    ensures Symmetric(Carve(g, p, d))
  {
    var r := Carve(g, p, d);
    forall y, x | 0 <= y < g.rows && 0 <= x < g.columns - 1
      ensures r.cells[y][x].walls.east == r.cells[y][x + 1].walls.west
    {
      CarvedEastWest(g.cells[y][x].walls, g.cells[y][x + 1].walls, x, y, p, d);
    }
    forall y, x | 0 <= y < g.rows - 1 && 0 <= x < g.columns
      ensures r.cells[y][x].walls.south == r.cells[y + 1][x].walls.north
    {
      CarvedSouthNorth(g.cells[y][x].walls, g.cells[y + 1][x].walls, x, y, p, d);
    }
  }

  lemma CarvedEastWest(w1: Walls, w2: Walls, x: int, y: int, p: Pos, d: OptionalDirection)
    requires w1.east == w2.west
    ensures CarvedWalls(w1, Pos(x, y), p, d).east == CarvedWalls(w2, Pos(x + 1, y), p, d).west
  {
    var a, b := Pos(x, y), Pos(x + 1, y);
    if d == E && p == a {
      assert Step(p, d) == b;
    } else if d == W && p == b {
      assert Step(p, d) == a;
    } else if d != None {
      assert CarvedWalls(w1, a, p, d).east == w1.east;
      assert CarvedWalls(w2, b, p, d).west == w2.west;
    }
  }

  lemma CarvedSouthNorth(w1: Walls, w2: Walls, x: int, y: int, p: Pos, d: OptionalDirection)
    requires w1.south == w2.north
    ensures CarvedWalls(w1, Pos(x, y), p, d).south == CarvedWalls(w2, Pos(x, y + 1), p, d).north
  {
    var a, b := Pos(x, y), Pos(x, y + 1);
    if d == S && p == a {
      assert Step(p, d) == b;
    } else if d == N && p == b {
      assert Step(p, d) == a;
    } else if d != None {
      assert CarvedWalls(w1, a, p, d).south == w1.south;
      assert CarvedWalls(w2, b, p, d).north == w2.north;
    }
  }

  /** A carve whose target is on the grid never opens a wall of the outer border. */
  lemma {:induction false} CarvePreservesBorder(g: Grid, p: Pos, d: OptionalDirection)
    requires WellFormed(g) && BorderClosed(g)
    requires InBounds(g, p) && InBounds(g, Step(p, d))
    ensures BorderClosed(Carve(g, p, d))
  {
    var r := Carve(g, p, d);
    forall y, x, d': Direction | 0 <= y < g.rows && 0 <= x < g.columns && !InBounds(g, Step(Pos(x, y), d'))
      ensures WallOn(r.cells[y][x].walls, d')
    {
      assert WallOn(g.cells[y][x].walls, d');
      if d != None {
        assert Pos(x, y) == p ==> d' != d;
        assert Pos(x, y) == Step(p, d) ==> Step(Pos(x, y), Opposite(d)) == p;
      }
    }
  }

  // ---------------------------------------------------------------------------
  // Counting open passages

  /** The open passages a cell owns: its east side and its south side, when the
      neighbour there is on the grid. Every inter-cell passage is owned by exactly
      one cell (its western or northern end). */
  function CellPassages(rows: nat, columns: nat, c: Cell): nat
  {
    (if c.x < columns - 1 && !c.walls.east then 1 else 0) +
    (if c.y < rows - 1 && !c.walls.south then 1 else 0)
  }

  function RowPassages(rows: nat, columns: nat, row: seq<Cell>): nat
  {
    if row == [] then 0
    else RowPassages(rows, columns, row[..|row| - 1]) + CellPassages(rows, columns, row[|row| - 1])
  }

  function CellsPassages(rows: nat, columns: nat, cells: seq<seq<Cell>>): nat
  {
    if cells == [] then 0
    else CellsPassages(rows, columns, cells[..|cells| - 1]) + RowPassages(rows, columns, cells[|cells| - 1])
  }

  /** The number of open inter-cell passages of a grid. */
  function Passages(g: Grid): nat
  {
    CellsPassages(g.rows, g.columns, g.cells)
  }

  lemma {:induction false} RowPassagesUpdate(rows: nat, columns: nat, row: seq<Cell>, i: int, c: Cell)
    requires 0 <= i < |row|
    ensures RowPassages(rows, columns, row[i := c]) ==
      RowPassages(rows, columns, row) - CellPassages(rows, columns, row[i]) + CellPassages(rows, columns, c)
  {
    var row' := row[i := c];
    if i == |row| - 1 {
      assert row'[..|row'| - 1] == row[..|row| - 1];
    } else {
      assert row'[..|row'| - 1] == row[..|row| - 1][i := c];
      RowPassagesUpdate(rows, columns, row[..|row| - 1], i, c);
    }
  }

  lemma {:induction false} CellsPassagesUpdate(rows: nat, columns: nat, cells: seq<seq<Cell>>, j: int, row: seq<Cell>)
    requires 0 <= j < |cells|
    ensures CellsPassages(rows, columns, cells[j := row]) ==
      CellsPassages(rows, columns, cells) - RowPassages(rows, columns, cells[j]) + RowPassages(rows, columns, row)
  {
    var cells' := cells[j := row];
    if j == |cells| - 1 {
      assert cells'[..|cells'| - 1] == cells[..|cells| - 1];
    } else {
      assert cells'[..|cells'| - 1] == cells[..|cells| - 1][j := row];
      CellsPassagesUpdate(rows, columns, cells[..|cells| - 1], j, row);
    }
  }

  /** The grid with the walls of the cell at q replaced by w. */
  function WithWalls(g: Grid, q: Pos, w: Walls): Grid
    requires WellFormed(g) && InBounds(g, q)
  {
    g.(cells := g.cells[q.y := g.cells[q.y][q.x := g.cells[q.y][q.x].(walls := w)]])
  }

  lemma {:induction false} PassagesWithWalls(g: Grid, q: Pos, w: Walls)
    requires WellFormed(g) && InBounds(g, q)
    ensures WellFormed(WithWalls(g, q, w))
    ensures Passages(WithWalls(g, q, w)) ==
      Passages(g) - CellPassages(g.rows, g.columns, g.cells[q.y][q.x])
                  + CellPassages(g.rows, g.columns, g.cells[q.y][q.x].(walls := w))
  {
    var c := g.cells[q.y][q.x];
    RowPassagesUpdate(g.rows, g.columns, g.cells[q.y], q.x, c.(walls := w));
    CellsPassagesUpdate(g.rows, g.columns, g.cells, q.y, g.cells[q.y][q.x := c.(walls := w)]);
  }

  /** Carving decomposes into two single-cell updates: p first, then its neighbour. */
  lemma {:induction false} CarveAsUpdates(g: Grid, p: Pos, d: Direction)
    requires WellFormed(g) && InBounds(g, p) && InBounds(g, Step(p, d))
    ensures Carve(g, p, d) ==
      var g1 := WithWalls(g, p, Opened(WallsAt(g, p), d));
      WithWalls(g1, Step(p, d), Opened(WallsAt(g1, Step(p, d)), Opposite(d)))
  {
    var q := Step(p, d);
    var g1 := WithWalls(g, p, Opened(WallsAt(g, p), d));
    var g2 := WithWalls(g1, q, Opened(WallsAt(g1, q), Opposite(d)));
    var r := Carve(g, p, d);
    assert p != q;
    forall y | 0 <= y < g.rows ensures r.cells[y] == g2.cells[y] {
      forall x | 0 <= x < g.columns ensures r.cells[y][x] == g2.cells[y][x] {
      }
    }
  }

  /** Carving through a standing wall of a symmetric grid opens exactly one more passage. */
  lemma {:induction false} CarveAddsPassage(g: Grid, p: Pos, d: Direction)
    requires WellFormed(g) && Symmetric(g)
    requires InBounds(g, p) && InBounds(g, Step(p, d))
    requires WallOn(WallsAt(g, p), d)
    ensures Passages(Carve(g, p, d)) == Passages(g) + 1
  {
    var q := Step(p, d);
    SymmetricFacing(g, p, d);
    var g1 := WithWalls(g, p, Opened(WallsAt(g, p), d));
    PassagesWithWalls(g, p, Opened(WallsAt(g, p), d));
    assert WallsAt(g1, q) == WallsAt(g, q);
    PassagesWithWalls(g1, q, Opened(WallsAt(g1, q), Opposite(d)));
    CarveAsUpdates(g, p, d);
    OpeningCountsOnce(g.rows, g.columns, g.cells[p.y][p.x], g.cells[q.y][q.x], d);
  }

  /** Opening the shared wall between a cell and its neighbour in direction d changes
      the passages the two own by exactly one. */
  lemma OpeningCountsOnce(rows: nat, columns: nat, a: Cell, b: Cell, d: Direction)
    requires 0 <= a.x < columns && 0 <= a.y < rows && 0 <= b.x < columns && 0 <= b.y < rows
    requires Pos(b.x, b.y) == Step(Pos(a.x, a.y), d)
    requires WallOn(a.walls, d) && WallOn(b.walls, Opposite(d))
    ensures CellPassages(rows, columns, a.(walls := Opened(a.walls, d))) - CellPassages(rows, columns, a) +
            CellPassages(rows, columns, b.(walls := Opened(b.walls, Opposite(d)))) - CellPassages(rows, columns, b) == 1
  {
  }

  /** A grid whose walls all stand has no passage. */
  lemma {:induction false} ClosedHasNoPassage(g: Grid)
    requires WellFormed(g) && AllClosed(g)
    ensures Passages(g) == 0
  {
    ClosedCellsNoPassage(g.rows, g.columns, g.cells);
  }

  lemma {:induction false} ClosedCellsNoPassage(rows: nat, columns: nat, cells: seq<seq<Cell>>)
    requires forall y, x :: 0 <= y < |cells| && 0 <= x < |cells[y]| ==> cells[y][x].walls.east && cells[y][x].walls.south
    ensures CellsPassages(rows, columns, cells) == 0
  {
    if cells != [] {
      ClosedCellsNoPassage(rows, columns, cells[..|cells| - 1]);
      ClosedRowNoPassage(rows, columns, cells[|cells| - 1]);
    }
  }

  lemma {:induction false} ClosedRowNoPassage(rows: nat, columns: nat, row: seq<Cell>)
    requires forall x :: 0 <= x < |row| ==> row[x].walls.east && row[x].walls.south
    ensures RowPassages(rows, columns, row) == 0
  {
    if row != [] {
      ClosedRowNoPassage(rows, columns, row[..|row| - 1]);
    }
  }

  // ---------------------------------------------------------------------------
  // Directions and neighbours that stay on the grid

  /** The order in which adjacent_cells and neighbors list the sides of a cell. */
  const ScanOrder: seq<Direction> := [W, E, N, S]

  /** The order in which noclip_directions_for lists directions. */
  const CompassOrder: seq<Direction> := [N, E, S, W]

  /** p and q are horizontally or vertically adjacent. */
  predicate Adjacent(p: Pos, q: Pos)
  {
    (q.x == p.x && (q.y == p.y - 1 || q.y == p.y + 1)) ||
    (q.y == p.y && (q.x == p.x - 1 || q.x == p.x + 1))
  }

  /** [v] when b holds, else []. */
  function Keep<T>(b: bool, v: T): (r: seq<T>)
  {
    if b then [v] else []
  }

  /** The directions, in the order N, E, S, W, whose step from p stays on the grid. */
  function OnGridDirections(g: Grid, p: Pos): seq<Direction>
  {
    Keep(InBounds(g, Step(p, N)), N) + Keep(InBounds(g, Step(p, E)), E) +
    Keep(InBounds(g, Step(p, S)), S) + Keep(InBounds(g, Step(p, W)), W)
  }

  /** The cells one step from p that are on the grid, in the order W, E, N, S. */
  function AdjacentOf(g: Grid, p: Pos): seq<Pos>
  {
    Keep(InBounds(g, Step(p, W)), Step(p, W)) + Keep(InBounds(g, Step(p, E)), Step(p, E)) +
    Keep(InBounds(g, Step(p, N)), Step(p, N)) + Keep(InBounds(g, Step(p, S)), Step(p, S))
  }

  /** A side of p leads on through an open wall. */
  predicate OpenSide(g: Grid, p: Pos, d: Direction)
    requires WellFormed(g) && InBounds(g, p)
  {
    InBounds(g, Step(p, d)) && !WallOn(WallsAt(g, p), d)
  }

  /** The on-grid cells next to p whose shared wall is open on p's side, in the order W, E, N, S. */
  function OpenNeighborsOf(g: Grid, p: Pos): seq<Pos>
    requires WellFormed(g) && InBounds(g, p)
  {
    Keep(OpenSide(g, p, W), Step(p, W)) + Keep(OpenSide(g, p, E), Step(p, E)) +
    Keep(OpenSide(g, p, N), Step(p, N)) + Keep(OpenSide(g, p, S), Step(p, S))
  }

  /** a is obtained from b by deleting elements (order kept). */
  predicate IsSubsequence<T(==)>(a: seq<T>, b: seq<T>)
  {
    if a == [] then true
    else if b == [] then false
    else if a[0] == b[0] then IsSubsequence(a[1..], b[1..])
    else IsSubsequence(a, b[1..])
  }

  lemma {:induction false} SubsequenceRefl<T>(a: seq<T>)
    ensures IsSubsequence(a, a)
  {
    if a != [] {
      SubsequenceRefl(a[1..]);
    }
  }

  /** Subsequences of the parts of a concatenation concatenate to a subsequence of it. */
  lemma {:induction false} SubsequenceConcat<T>(a1: seq<T>, b1: seq<T>, a2: seq<T>, b2: seq<T>)
    requires IsSubsequence(a1, b1) && IsSubsequence(a2, b2)
    ensures IsSubsequence(a1 + a2, b1 + b2)
    decreases |b1|
  {
    if b1 == [] {
      assert a1 == [];
      assert a1 + a2 == a2 && b1 + b2 == b2;
    } else if a1 != [] && a1[0] == b1[0] {
      SubsequenceConcat(a1[1..], b1[1..], a2, b2);
      assert (a1 + a2)[1..] == a1[1..] + a2 && (b1 + b2)[1..] == b1[1..] + b2;
    } else {
      SubsequenceConcat(a1, b1[1..], a2, b2);
      assert (b1 + b2)[1..] == b1[1..] + b2;
      if a1 + a2 != [] {
        SubsequenceOfTail(a1 + a2, b1 + b2);
      }
    }
  }

  /** No element of s occurs twice. */
  predicate Distinct<T(==)>(s: seq<T>)
  {
    forall i, j :: 0 <= i < j < |s| ==> s[i] != s[j]
  }

  lemma {:induction false} SubsequenceMembers<T>(a: seq<T>, b: seq<T>)
    requires IsSubsequence(a, b)
    ensures forall v :: v in a ==> v in b
    decreases |b|
  {
    if a != [] {
      if a[0] == b[0] {
        SubsequenceMembers(a[1..], b[1..]);
        assert forall v :: v in a ==> v == a[0] || v in a[1..];
      } else {
        SubsequenceMembers(a, b[1..]);
      }
    }
  }

  /** Leaving elements out of a list without repetitions leaves one without repetitions. */
  lemma {:induction false} SubsequenceDistinct<T>(a: seq<T>, b: seq<T>)
    requires IsSubsequence(a, b) && Distinct(b)
    ensures Distinct(a)
    decreases |b|
  {
    if a != [] {
      assert Distinct(b[1..]);
      if a[0] == b[0] {
        SubsequenceDistinct(a[1..], b[1..]);
        SubsequenceMembers(a[1..], b[1..]);
        assert b[0] !in b[1..];
        forall i, j | 0 <= i < j < |a| ensures a[i] != a[j] {
          if i == 0 {
            assert a[j] == a[1..][j - 1];
          } else {
            assert a[i] == a[1..][i - 1] && a[j] == a[1..][j - 1];
          }
        }
      } else {
        SubsequenceDistinct(a, b[1..]);
      }
    }
  }

  lemma {:induction false} KeepSubsequence<T>(b: bool, v: T)
    ensures IsSubsequence(Keep(b, v), [v])
  {
    assert [v][1..] == [];
  }

  lemma {:induction false} SubsequenceOfTail<T>(a: seq<T>, b: seq<T>)
    requires b != [] && IsSubsequence(a, b[1..])
    ensures IsSubsequence(a, b)
    decreases |b|, 0
  {
    if a != [] && a[0] == b[0] {
      SubsequenceDropHead(a, b[1..]);
    }
  }

  lemma {:induction false} SubsequenceDropHead<T>(a: seq<T>, c: seq<T>)
    requires a != [] && IsSubsequence(a, c)
    ensures IsSubsequence(a[1..], c)
    decreases |c|, 1
  {
    assert c != [];
    if a[0] != c[0] {
      SubsequenceDropHead(a, c[1..]);
    }
    SubsequenceOfTail(a[1..], c);
  }

  lemma {:induction false} SubsequenceLength<T>(a: seq<T>, b: seq<T>)
    requires IsSubsequence(a, b)
    ensures |a| <= |b|
  {
    if a != [] {
      if a[0] == b[0] {
        SubsequenceLength(a[1..], b[1..]);
      } else {
        SubsequenceLength(a, b[1..]);
      }
    }
  }

  /** Four slots, each kept or dropped, form a subsequence of the four slots all kept. */
  lemma {:induction false} FourSlotsSubsequence<T>(b1: bool, b2: bool, b3: bool, b4: bool, v1: T, v2: T, v3: T, v4: T)
    ensures IsSubsequence(Keep(b1, v1) + Keep(b2, v2) + Keep(b3, v3) + Keep(b4, v4), [v1, v2, v3, v4])
  {
    KeepSubsequence(b1, v1);
    KeepSubsequence(b2, v2);
    KeepSubsequence(b3, v3);
    KeepSubsequence(b4, v4);
    SubsequenceConcat(Keep(b1, v1), [v1], Keep(b2, v2), [v2]);
    assert [v1] + [v2] == [v1, v2];
    SubsequenceConcat(Keep(b1, v1) + Keep(b2, v2), [v1, v2], Keep(b3, v3), [v3]);
    assert [v1, v2] + [v3] == [v1, v2, v3];
    SubsequenceConcat(Keep(b1, v1) + Keep(b2, v2) + Keep(b3, v3), [v1, v2, v3], Keep(b4, v4), [v4]);
    assert [v1, v2, v3] + [v4] == [v1, v2, v3, v4];
  }

  /** noclip_directions_for's directions are exactly those that stay on the grid,
      listed in the order N, E, S, W without repetition; some exist whenever the grid
      has more than one cell. */
  lemma {:induction false} OnGridDirectionsSpec(g: Grid, p: Pos)
    requires InBounds(g, p)
    ensures forall d: Direction :: d in OnGridDirections(g, p) <==> InBounds(g, Step(p, d))
    ensures IsSubsequence(OnGridDirections(g, p), CompassOrder)
    ensures g.rows * g.columns > 1 ==> OnGridDirections(g, p) != []
  {
    FourSlotsSubsequence<Direction>(InBounds(g, Step(p, N)), InBounds(g, Step(p, E)), InBounds(g, Step(p, S)), InBounds(g, Step(p, W)), N, E, S, W);
    if g.rows * g.columns > 1 {
      if g.rows > 1 {
        assert InBounds(g, Step(p, N)) || InBounds(g, Step(p, S));
      } else {
        assert g.columns > 1;
        assert InBounds(g, Step(p, E)) || InBounds(g, Step(p, W));
      }
    }
  }

  /** adjacent_cells lists exactly the on-grid cells next to p, each once, at most four. */
  lemma {:induction false} AdjacentOfSpec(g: Grid, p: Pos)
    ensures forall q :: q in AdjacentOf(g, p) <==> InBounds(g, q) && Adjacent(p, q)
    ensures |AdjacentOf(g, p)| <= 4
    ensures Distinct(AdjacentOf(g, p))
  {
    var w, east, n, s := Step(p, W), Step(p, E), Step(p, N), Step(p, S);
    FourSlotsSubsequence(InBounds(g, w), InBounds(g, east), InBounds(g, n), InBounds(g, s), w, east, n, s);
    SubsequenceDistinct(AdjacentOf(g, p), [w, east, n, s]);
  }

  /** neighbors lists exactly the cells next to p reached through an open wall on p's side, at most four. */
  lemma {:induction false} OpenNeighborsOfMembers(g: Grid, p: Pos)
    requires WellFormed(g) && InBounds(g, p)
    ensures forall q :: q in OpenNeighborsOf(g, p) <==> exists d: Direction :: q == Step(p, d) && OpenSide(g, p, d)
    ensures |OpenNeighborsOf(g, p)| <= 4
  {
    forall q | exists d: Direction :: q == Step(p, d) && OpenSide(g, p, d)
      ensures q in OpenNeighborsOf(g, p)
    {
      var d: Direction :| q == Step(p, d) && OpenSide(g, p, d);
    }
  }

  /** The list of neighbors is the list of adjacent_cells with some cells left out, order kept. */
  lemma {:induction false} OpenNeighborsOfSubsequence(g: Grid, p: Pos)
    requires WellFormed(g) && InBounds(g, p)
    ensures IsSubsequence(OpenNeighborsOf(g, p), AdjacentOf(g, p))
  {
    var bw, be, bn, bs := InBounds(g, Step(p, W)), InBounds(g, Step(p, E)), InBounds(g, Step(p, N)), InBounds(g, Step(p, S));
    var ow, oe, on, os := OpenSide(g, p, W), OpenSide(g, p, E), OpenSide(g, p, N), OpenSide(g, p, S);
    var vw, ve, vn, vs := Step(p, W), Step(p, E), Step(p, N), Step(p, S);
    KeepWithin(ow, bw, vw);
    KeepWithin(oe, be, ve);
    KeepWithin(on, bn, vn);
    KeepWithin(os, bs, vs);
    SubsequenceConcat(Keep(ow, vw), Keep(bw, vw), Keep(oe, ve), Keep(be, ve));
    SubsequenceConcat(Keep(ow, vw) + Keep(oe, ve), Keep(bw, vw) + Keep(be, ve), Keep(on, vn), Keep(bn, vn));
    SubsequenceConcat(Keep(ow, vw) + Keep(oe, ve) + Keep(on, vn), Keep(bw, vw) + Keep(be, ve) + Keep(bn, vn), Keep(os, vs), Keep(bs, vs));
  }

  lemma KeepWithin<T>(a: bool, b: bool, v: T)
    requires a ==> b
    ensures IsSubsequence(Keep(a, v), Keep(b, v))
  {
    if a {
      assert [v][1..] == [];
    }
  }

  /** In a grid whose shared walls agree, the open-neighbour relation is symmetric. */
  lemma {:induction false} OpenNeighborsSymmetric(g: Grid, p: Pos, q: Pos)
    requires WellFormed(g) && Symmetric(g) && InBounds(g, p) && InBounds(g, q)
    ensures q in OpenNeighborsOf(g, p) <==> p in OpenNeighborsOf(g, q)
  {
    if q in OpenNeighborsOf(g, p) {
      OpenNeighborReversed(g, p, q);
    }
    if p in OpenNeighborsOf(g, q) {
      OpenNeighborReversed(g, q, p);
    }
  }

  lemma OpenNeighborReversed(g: Grid, p: Pos, q: Pos)
    requires WellFormed(g) && Symmetric(g) && InBounds(g, p) && InBounds(g, q)
    requires q in OpenNeighborsOf(g, p)
    ensures p in OpenNeighborsOf(g, q)
  {
    var d: Direction := OpenSideTo(g, p, q);
    OpenSideReversed(g, p, d);
    OpenSideListed(g, q, Opposite(d));
  }

  /** The side of p through which the listed open neighbour q is reached. */
  function OpenSideTo(g: Grid, p: Pos, q: Pos): (d: Direction)
    requires WellFormed(g) && InBounds(g, p) && q in OpenNeighborsOf(g, p)
    ensures q == Step(p, d) && OpenSide(g, p, d)
  {
    if OpenSide(g, p, W) && q == Step(p, W) then W
    else if OpenSide(g, p, E) && q == Step(p, E) then E
    else if OpenSide(g, p, N) && q == Step(p, N) then N
    else S
  }

  lemma OpenSideReversed(g: Grid, p: Pos, d: Direction)
    requires WellFormed(g) && Symmetric(g) && InBounds(g, p) && OpenSide(g, p, d)
    ensures Step(Step(p, d), Opposite(d)) == p && OpenSide(g, Step(p, d), Opposite(d))
  {
    SymmetricFacing(g, p, d);
  }

  lemma OpenSideListed(g: Grid, p: Pos, d: Direction)
    requires WellFormed(g) && InBounds(g, p) && OpenSide(g, p, d)
    ensures Step(p, d) in OpenNeighborsOf(g, p)
  {
  }

  // ---------------------------------------------------------------------------
  // The set of all cells

  /** The coordinates of every cell of a rows x columns grid. */
  function AllCells(rows: nat, columns: nat): set<Pos>
  {
    set y, x | 0 <= y < rows && 0 <= x < columns :: Pos(x, y)
  }

  function RowCells(y: int, columns: nat): set<Pos>
  {
    set x | 0 <= x < columns :: Pos(x, y)
  }

  lemma {:induction false} RowCellsSize(y: int, columns: nat)
    ensures |RowCells(y, columns)| == columns
  {
    if columns > 0 {
      RowCellsSize(y, columns - 1);
      assert RowCells(y, columns) == RowCells(y, columns - 1) + {Pos(columns - 1, y)};
    } else {
      assert RowCells(y, columns) == {};
    }
  }

  /** A rows x columns grid has exactly rows * columns cells. */
  lemma {:induction false} AllCellsSize(rows: nat, columns: nat)
    ensures |AllCells(rows, columns)| == rows * columns
  {
    if rows > 0 {
      AllCellsSize(rows - 1, columns);
      RowCellsSize(rows - 1, columns);
      AllCellsLastRow(rows, columns);
      assert rows * columns == (rows - 1) * columns + columns;
    } else {
      assert AllCells(rows, columns) == {};
    }
  }

  /** The cells of a grid are those of the grid one row shorter plus, apart from them, its last row. */
  lemma AllCellsLastRow(rows: nat, columns: nat)
    requires rows > 0
    ensures AllCells(rows, columns) == AllCells(rows - 1, columns) + RowCells(rows - 1, columns)
    ensures AllCells(rows - 1, columns) !! RowCells(rows - 1, columns)
  {
    forall p | p in AllCells(rows, columns)
      ensures p in AllCells(rows - 1, columns) + RowCells(rows - 1, columns)
    {
      if p.y < rows - 1 {
        assert p in AllCells(rows - 1, columns);
      } else {
        assert p in RowCells(rows - 1, columns);
      }
    }
  }

  /** A set of on-grid cells as large as the grid is the whole grid. */
  lemma {:induction false} FullSubsetIsAll(g: Grid, s: set<Pos>)
    requires forall p :: p in s ==> InBounds(g, p)
    requires |s| >= g.rows * g.columns
    ensures s == AllCells(g.rows, g.columns)
  {
    assert s <= AllCells(g.rows, g.columns) by {
      forall p | p in s ensures p in AllCells(g.rows, g.columns) {
        assert InBounds(g, p);
        assert p == Pos(p.x, p.y);
      }
    }
    AllCellsSize(g.rows, g.columns);
    SubsetSameSize(s, AllCells(g.rows, g.columns));
  }

  lemma {:induction false} SubsetSameSize<T>(a: set<T>, b: set<T>)
    requires a <= b && |a| >= |b|
    ensures a == b
  {
    if a != b {
      var e :| e in b && e !in a;
      SubsetSize(a, b - {e});
    }
  }

  lemma {:induction false} SubsetSize<T>(a: set<T>, b: set<T>)
    requires a <= b
    ensures |a| <= |b|
  {
    if a != {} {
      var e :| e in a;
      SubsetSize(a - {e}, b - {e});
    }
  }
}

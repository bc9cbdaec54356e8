/** draw_maze_console of src/maze/types.ts: the text picture of a maze, three
    characters per cell and one more for the left border on each line. The text is
    returned instead of being written to the console. */
module MazeConsole {
  import opened GridModel
  import opened MazeTypes

  /** The two characters above a cell: a wall or a door. */
  function NorthGlyph(c: Cell): string
  {
    if c.walls.north then "--" else "  "
  }

  function SouthGlyph(c: Cell): string
  {
    if c.walls.south then "--" else "  "
  }

  /** The character to the right of a cell. */
  function EastGlyph(c: Cell): string
  {
    if c.walls.east then "|" else " "
  }

  function WestGlyph(c: Cell): string
  {
    if c.walls.west then "|" else " "
  }

  function TopSegments(row: seq<Cell>): string
  {
    if row == [] then "" else TopSegments(row[..|row| - 1]) + NorthGlyph(row[|row| - 1]) + "+"
  }

  function MiddleSegments(row: seq<Cell>): string
  {
    if row == [] then "" else MiddleSegments(row[..|row| - 1]) + "  " + EastGlyph(row[|row| - 1])
  }

  function BottomSegments(row: seq<Cell>): string
  {
    if row == [] then "" else BottomSegments(row[..|row| - 1]) + SouthGlyph(row[|row| - 1]) + "+"
  }

  /** The line above the first row: its north walls between corners. */
  function TopLine(row: seq<Cell>): string
  {
    "+" + TopSegments(row)
  }

  /** The line through a row: the west wall of its first cell, then each cell's east wall. */
  function MiddleLine(row: seq<Cell>): string
  {
    if row == [] then "" else WestGlyph(row[0]) + MiddleSegments(row)
  }

  /** The line below a row: its south walls between corners. */
  function BottomLine(row: seq<Cell>): string
  {
    if row == [] then "" else "+" + BottomSegments(row)
  }

  /** A row adds its middle and bottom line, each after a line break. */
  function RowText(row: seq<Cell>): string
  {
    "\n" + MiddleLine(row) + "\n" + BottomLine(row)
  }

  /** The line break and top line drawn before a row: only before the first one. */
  function Header(before: seq<seq<Cell>>, row: seq<Cell>): string
  {
    if before == [] then "\n" + TopLine(row) else ""
  }

  /** The whole picture: the top line over the first row, then every row. */
  function Drawing(rows: seq<seq<Cell>>): string
  {
    if rows == [] then ""
    else
      var before, last := rows[..|rows| - 1], rows[|rows| - 1];
      Drawing(before) + Header(before, last) + RowText(last)
  }

  /** draw_maze_console, with its first-row flag; each line is built by one of the
      three loops below. */
  method DrawMazeConsole(maze: Maze) returns (result: string)
    ensures result == Drawing(maze.cells)
  {
    var cells := maze.cells;
    result := "";
    var firstRow := true;
    var i := 0;
    while i < |cells|
      invariant 0 <= i <= |cells|
      invariant firstRow == (i == 0)
      invariant result == Drawing(cells[..i])
    {
      var row := cells[i];
      var header := "";
      if firstRow {
        firstRow := false;
        var top := DrawTopLine(row);
        header := "\n" + top;
      }
      var text := DrawRow(row);
      assert cells[..i + 1][..i] == cells[..i];
      result := result + header + text;
      i := i + 1;
    }
    assert cells[..i] == cells;
  }

  /** The middle and bottom line of a row, each after a line break. */
  method DrawRow(row: seq<Cell>) returns (text: string)
    ensures text == RowText(row)
  {
    var middle := DrawMiddleLine(row);
    var bottom := DrawBottomLine(row);
    text := "\n" + middle + "\n" + bottom;
  }

  /** The corner, then each north wall and a corner. */
  method DrawTopLine(row: seq<Cell>) returns (line: string)
    ensures line == TopLine(row)
  {
    line := "";
    var firstColumn := true;
    if firstColumn {
      line := line + "+";
      firstColumn := false;
    }
    var j := 0;
    assert line == TopLine(row[..0]);
    while j < |row|
      invariant 0 <= j <= |row|
      invariant line == TopLine(row[..j])
    {
      var top := "  ";
      if row[j].walls.north {
        top := "--";
      }
      TopLineExtend(row, j);
      ghost var head := line;
      line := line + top + "+";
      assert line == head + NorthGlyph(row[j]) + "+";
      j := j + 1;
    }
    assert row[..j] == row;
  }

  /** The first cell's west wall, then each cell's interior and east wall. */
  method DrawMiddleLine(row: seq<Cell>) returns (line: string)
    ensures line == MiddleLine(row)
  {
    line := "";
    var firstColumn := true;
    var j := 0;
    while j < |row|
      invariant 0 <= j <= |row|
      invariant firstColumn == (j == 0)
      invariant line == MiddleLine(row[..j])
    {
      if firstColumn {
        assert line == "";
        var left := " ";
        if row[j].walls.west {
          left := "|";
        }
        line := line + left;
        firstColumn := false;
      }
      var rightSide := " ";
      if row[j].walls.east {
        rightSide := "|";
      }
      MiddleLineExtend(row, j);
      ghost var head := line;
      assert head == if j == 0 then WestGlyph(row[0]) else MiddleLine(row[..j]);
      line := line + "  " + rightSide;
      assert line == head + "  " + EastGlyph(row[j]);
      j := j + 1;
    }
    assert row[..j] == row;
  }

  /** A corner, then each south wall and a corner; nothing for an empty row. */
  method DrawBottomLine(row: seq<Cell>) returns (line: string)
    ensures line == BottomLine(row)
  {
    line := "";
    var firstColumn := true;
    var j := 0;
    while j < |row|
      invariant 0 <= j <= |row|
      invariant firstColumn == (j == 0)
      invariant line == BottomLine(row[..j])
    {
      if firstColumn {
        assert line == "";
        line := line + "+";
        firstColumn := false;
      }
      var bottom := "  ";
      if row[j].walls.south {
        bottom := "--";
      }
      BottomLineExtend(row, j);
      ghost var head := line;
      assert head == if j == 0 then "+" else BottomLine(row[..j]);
      line := line + bottom + "+";
      assert line == head + SouthGlyph(row[j]) + "+";
      j := j + 1;
    }
    assert row[..j] == row;
  }

  /** One more cell on the top line adds its north glyph and a corner. */
  lemma TopLineExtend(row: seq<Cell>, j: nat)
    requires j < |row|
    ensures TopLine(row[..j + 1]) == TopLine(row[..j]) + NorthGlyph(row[j]) + "+"
  {
    var prefix := row[..j + 1];
    assert prefix[..|prefix| - 1] == row[..j];
    var segs, glyph := TopSegments(row[..j]), NorthGlyph(row[j]);
    assert TopSegments(prefix) == segs + glyph + "+";
    assert TopLine(prefix) == "+" + (segs + glyph + "+");
  }

  /** One more cell on a middle line adds its interior and east glyph; the first also its west glyph. */
  lemma MiddleLineExtend(row: seq<Cell>, j: nat)
    requires j < |row|
    ensures MiddleLine(row[..j + 1]) == (if j == 0 then WestGlyph(row[0]) else MiddleLine(row[..j])) + "  " + EastGlyph(row[j])
  {
    var prefix := row[..j + 1];
    assert prefix[..|prefix| - 1] == row[..j];
    assert prefix[0] == row[0];
    if j == 0 {
      MiddleLineFirst(prefix);
    } else {
      MiddleLineNext(prefix, row[..j]);
    }
  }

  lemma MiddleLineFirst(row: seq<Cell>)
    requires |row| == 1
    ensures MiddleLine(row) == WestGlyph(row[0]) + "  " + EastGlyph(row[0])
  {
    assert row[..0] == [];
    var east := EastGlyph(row[0]);
    assert MiddleSegments(row) == "" + "  " + east == "  " + east;
  }

  lemma MiddleLineNext(row: seq<Cell>, before: seq<Cell>)
    requires |row| > 1 && before == row[..|row| - 1]
    ensures MiddleLine(row) == MiddleLine(before) + "  " + EastGlyph(row[|row| - 1])
  {
    assert before[0] == row[0];
    var west, segs := WestGlyph(row[0]), MiddleSegments(before);
    assert MiddleLine(row) == west + (segs + "  " + EastGlyph(row[|row| - 1]));
  }

  /** One more cell on a bottom line adds its south glyph and a corner; the first also the leading corner. */
  lemma BottomLineExtend(row: seq<Cell>, j: nat)
    requires j < |row|
    ensures BottomLine(row[..j + 1]) == (if j == 0 then "+" else BottomLine(row[..j])) + SouthGlyph(row[j]) + "+"
  {
    var prefix := row[..j + 1];
    assert prefix[..|prefix| - 1] == row[..j];
    var segs, glyph := BottomSegments(row[..j]), SouthGlyph(row[j]);
    assert BottomSegments(prefix) == segs + glyph + "+";
    assert BottomLine(prefix) == "+" + (segs + glyph + "+");
    if j == 0 {
      assert segs == "";
    } else {
      assert BottomLine(row[..j]) == "+" + segs;
    }
  }

  // ---------------------------------------------------------------------------
  // The shape of the picture

  /** Three characters per cell: a two-character north wall or door, then a corner. */
  lemma {:induction false} TopSegmentsShape(row: seq<Cell>)
    ensures |TopSegments(row)| == 3 * |row|
    ensures forall x :: 0 <= x < |row| ==>
      TopSegments(row)[3 * x] == TopSegments(row)[3 * x + 1] == (if row[x].walls.north then '-' else ' ') &&
      TopSegments(row)[3 * x + 2] == '+'
  {
    if row != [] {
      var before := row[..|row| - 1];
      TopSegmentsShape(before);
      forall x | 0 <= x < |row| - 1
        ensures TopSegments(row)[3 * x] == TopSegments(before)[3 * x]
        ensures TopSegments(row)[3 * x + 1] == TopSegments(before)[3 * x + 1]
        ensures TopSegments(row)[3 * x + 2] == TopSegments(before)[3 * x + 2]
        ensures before[x] == row[x]
      {
      }
    }
  }

  /** Three characters per cell: two blanks for its interior, then its east wall or door. */
  lemma {:induction false} MiddleSegmentsShape(row: seq<Cell>)
    ensures |MiddleSegments(row)| == 3 * |row|
    ensures forall x :: 0 <= x < |row| ==>
      MiddleSegments(row)[3 * x] == MiddleSegments(row)[3 * x + 1] == ' ' &&
      MiddleSegments(row)[3 * x + 2] == (if row[x].walls.east then '|' else ' ')
  {
    if row != [] {
      var before := row[..|row| - 1];
      MiddleSegmentsShape(before);
      forall x | 0 <= x < |row| - 1
        ensures MiddleSegments(row)[3 * x] == MiddleSegments(before)[3 * x]
        ensures MiddleSegments(row)[3 * x + 1] == MiddleSegments(before)[3 * x + 1]
        ensures MiddleSegments(row)[3 * x + 2] == MiddleSegments(before)[3 * x + 2]
        ensures before[x] == row[x]
      {
      }
    }
  }

  /** Three characters per cell: a two-character south wall or door, then a corner. */
  lemma {:induction false} BottomSegmentsShape(row: seq<Cell>)
    ensures |BottomSegments(row)| == 3 * |row|
    ensures forall x :: 0 <= x < |row| ==>
      BottomSegments(row)[3 * x] == BottomSegments(row)[3 * x + 1] == (if row[x].walls.south then '-' else ' ') &&
      BottomSegments(row)[3 * x + 2] == '+'
  {
    if row != [] {
      var before := row[..|row| - 1];
      BottomSegmentsShape(before);
      forall x | 0 <= x < |row| - 1
        ensures BottomSegments(row)[3 * x] == BottomSegments(before)[3 * x]
        ensures BottomSegments(row)[3 * x + 1] == BottomSegments(before)[3 * x + 1]
        ensures BottomSegments(row)[3 * x + 2] == BottomSegments(before)[3 * x + 2]
        ensures before[x] == row[x]
      {
      }
    }
  }

  /** The top line is 3 * columns + 1 characters: corners at multiples of three, and
      between two corners "--" exactly where the cell below has its north wall. */
  lemma TopLineShape(row: seq<Cell>)
    ensures |TopLine(row)| == 3 * |row| + 1
    ensures forall x :: 0 <= x <= |row| ==> TopLine(row)[3 * x] == '+'
    ensures forall x :: 0 <= x < |row| ==>
      TopLine(row)[3 * x + 1] == TopLine(row)[3 * x + 2] == (if row[x].walls.north then '-' else ' ')
  {
    TopSegmentsShape(row);
    forall x | 0 <= x <= |row| ensures TopLine(row)[3 * x] == '+' {
      if x > 0 {
        assert TopLine(row)[3 * x] == TopSegments(row)[3 * (x - 1) + 2];
      }
    }
  }

  /** A line through a non-empty row is 3 * columns + 1 characters: the first cell's
      west wall or door, then per cell two blanks and '|' exactly where its east wall stands. */
  lemma MiddleLineShape(row: seq<Cell>)
    requires |row| > 0
    ensures |MiddleLine(row)| == 3 * |row| + 1
    ensures MiddleLine(row)[0] == if row[0].walls.west then '|' else ' '
    ensures forall x :: 0 <= x < |row| ==>
      MiddleLine(row)[3 * x + 1] == MiddleLine(row)[3 * x + 2] == ' ' &&
      MiddleLine(row)[3 * x + 3] == (if row[x].walls.east then '|' else ' ')
  {
    MiddleSegmentsShape(row);
    forall x | 0 <= x < |row|
      ensures MiddleLine(row)[3 * x + 1] == MiddleSegments(row)[3 * x]
      ensures MiddleLine(row)[3 * x + 2] == MiddleSegments(row)[3 * x + 1]
      ensures MiddleLine(row)[3 * x + 3] == MiddleSegments(row)[3 * x + 2]
    {
    }
  }

  /** A line below a non-empty row is 3 * columns + 1 characters: corners at multiples of
      three, and "--" exactly where the cell above has its south wall. */
  lemma BottomLineShape(row: seq<Cell>)
    requires |row| > 0
    ensures |BottomLine(row)| == 3 * |row| + 1
    ensures forall x :: 0 <= x <= |row| ==> BottomLine(row)[3 * x] == '+'
    ensures forall x :: 0 <= x < |row| ==>
      BottomLine(row)[3 * x + 1] == BottomLine(row)[3 * x + 2] == (if row[x].walls.south then '-' else ' ')
  {
    BottomSegmentsShape(row);
    forall x | 0 <= x <= |row| ensures BottomLine(row)[3 * x] == '+' {
      if x > 0 {
        assert BottomLine(row)[3 * x] == BottomSegments(row)[3 * (x - 1) + 2];
      }
    }
  }

  /** A line of the picture: the top line over a row, or the middle or bottom line of a row. */
  datatype Line = Top(row: seq<Cell>) | Middle(row: seq<Cell>) | Bottom(row: seq<Cell>)

  function Text(l: Line): string
  {
    match l
    case Top(row) => TopLine(row)
    case Middle(row) => MiddleLine(row)
    case Bottom(row) => BottomLine(row)
  }

  /** The lines of the picture, in order: the top line, then a middle and a bottom line per row. */
  function Lines(rows: seq<seq<Cell>>): seq<Line>
  {
    if rows == [] then []
    else
      var before, last := rows[..|rows| - 1], rows[|rows| - 1];
      Lines(before) + (if before == [] then [Top(last)] else []) + [Middle(last), Bottom(last)]
  }

  /** Each line preceded by a line break. */
  function JoinLines(lines: seq<Line>): string
  {
    if lines == [] then "" else JoinLines(lines[..|lines| - 1]) + "\n" + Text(lines[|lines| - 1])
  }

  lemma {:induction false} JoinLinesAppend(a: seq<Line>, b: seq<Line>)
    ensures JoinLines(a + b) == JoinLines(a) + JoinLines(b)
    decreases |b|
  {
    if b == [] {
      assert a + b == a;
    } else {
      var b', l := b[..|b| - 1], b[|b| - 1];
      assert (a + b)[..|a + b| - 1] == a + b';
      JoinLinesAppend(a, b');
      var ja, jb, t := JoinLines(a), JoinLines(b'), Text(l);
      assert ja + jb + "\n" + t == ja + (jb + "\n" + t);
    }
  }

  lemma RowTextJoined(row: seq<Cell>)
    ensures JoinLines([Middle(row), Bottom(row)]) == RowText(row)
  {
    var tail := [Middle(row), Bottom(row)];
    assert tail[..1] == [Middle(row)];
    assert tail[..1][..0] == [];
    assert JoinLines([Middle(row)]) == "" + "\n" + MiddleLine(row) == "\n" + MiddleLine(row);
  }

  lemma HeaderJoined(before: seq<seq<Cell>>, row: seq<Cell>)
    ensures JoinLines(if before == [] then [Top(row)] else []) == Header(before, row)
  {
    if before == [] {
      assert [Top(row)][..0] == [];
      assert JoinLines([Top(row)]) == "" + "\n" + TopLine(row) == "\n" + TopLine(row);
    }
  }

  /** draw_maze_console prints its lines each after a line break. */
  lemma {:induction false} DrawingJoinsLines(rows: seq<seq<Cell>>)
    ensures Drawing(rows) == JoinLines(Lines(rows))
  {
    if rows != [] {
      var before, last := rows[..|rows| - 1], rows[|rows| - 1];
      DrawingJoinsLines(before);
      var head := if before == [] then [Top(last)] else [];
      var tail := [Middle(last), Bottom(last)];
      JoinLinesAppend(Lines(before) + head, tail);
      JoinLinesAppend(Lines(before), head);
      HeaderJoined(before, last);
      RowTextJoined(last);
    }
  }

  /** There are 2 * rows + 1 lines (none for an empty maze): the top line over the first
      row, then the middle and the bottom line of each row in turn. */
  lemma {:induction false} LinesLayout(rows: seq<seq<Cell>>)
    ensures |Lines(rows)| == if rows == [] then 0 else 2 * |rows| + 1
    ensures rows != [] ==> Lines(rows)[0] == Top(rows[0])
    ensures forall y :: 0 <= y < |rows| ==>
      Lines(rows)[2 * y + 1] == Middle(rows[y]) && Lines(rows)[2 * y + 2] == Bottom(rows[y])
  {
    if rows != [] {
      var before, last := rows[..|rows| - 1], rows[|rows| - 1];
      LinesLayout(before);
      var ls := Lines(rows);
      var prior := Lines(before) + (if before == [] then [Top(last)] else []);
      assert |prior| == 2 * |before| + 1;
      assert ls == prior + [Middle(last), Bottom(last)];
      forall y | 0 <= y < |rows|
        ensures ls[2 * y + 1] == Middle(rows[y]) && ls[2 * y + 2] == Bottom(rows[y])
      {
        if y < |before| {
          assert before[y] == rows[y];
          assert ls[2 * y + 1] == Lines(before)[2 * y + 1];
          assert ls[2 * y + 2] == Lines(before)[2 * y + 2];
        }
      }
      if before != [] {
        assert before[0] == rows[0];
        assert ls[0] == Lines(before)[0];
      }
    }
  }

  function LastRow(rows: seq<seq<Cell>>): seq<Cell>
    requires rows != []
  {
    rows[|rows| - 1]
  }

  /** A line with corners at multiples of three and "--" between each two is all wall. */
  lemma AllWall(line: string, n: nat)
    requires |line| == 3 * n + 1
    requires forall x :: 0 <= x <= n ==> line[3 * x] == '+'
    requires forall x :: 0 <= x < n ==> line[3 * x + 1] == line[3 * x + 2] == '-'
    ensures forall i :: 0 <= i < |line| ==> line[i] in "+-"
  {
    forall i | 0 <= i < |line| ensures line[i] in "+-" {
      var k := i / 3;
      assert i == 3 * k || i == 3 * k + 1 || i == 3 * k + 2;
    }
  }

  /** With the top row's north walls standing, the top line is all wall. */
  lemma TopBorderDrawn(g: Grid)
    requires WellFormed(g) && BorderClosed(g) && g.rows > 0
    ensures |TopLine(g.cells[0])| == 3 * g.columns + 1
    ensures forall x :: 0 <= x < |TopLine(g.cells[0])| ==> TopLine(g.cells[0])[x] in "+-"
  {
    var row := g.cells[0];
    TopLineShape(row);
    forall x | 0 <= x < g.columns ensures row[x].walls.north {
      assert !InBounds(g, Step(Pos(x, 0), N));
    }
    AllWall(TopLine(row), g.columns);
  }

  /** With the last row's south walls standing, its bottom line is all wall. */
  lemma BottomBorderDrawn(g: Grid)
    requires WellFormed(g) && BorderClosed(g) && g.rows > 0 && g.columns > 0
    ensures |BottomLine(LastRow(g.cells))| == 3 * g.columns + 1
    ensures forall x :: 0 <= x < |BottomLine(LastRow(g.cells))| ==> BottomLine(LastRow(g.cells))[x] in "+-"
  {
    var row := LastRow(g.cells);
    BottomLineShape(row);
    forall x | 0 <= x < g.columns ensures row[x].walls.south {
      assert !InBounds(g, Step(Pos(x, g.rows - 1), S));
    }
    AllWall(BottomLine(row), g.columns);
  }

  /** With the west wall of the first cell and the east wall of the last standing, a middle line starts and ends with '|'. */
  lemma SideBordersDrawn(g: Grid, y: nat)
    requires WellFormed(g) && BorderClosed(g) && y < g.rows && g.columns > 0
    ensures |MiddleLine(g.cells[y])| == 3 * g.columns + 1
    ensures MiddleLine(g.cells[y])[0] == '|' && MiddleLine(g.cells[y])[3 * g.columns] == '|'
  {
    MiddleLineShape(g.cells[y]);
    assert !InBounds(g, Step(Pos(0, y), W));
    assert !InBounds(g, Step(Pos(g.columns - 1, y), E));
    assert 3 * g.columns == 3 * (g.columns - 1) + 3;
  }

  /** In a maze whose outer border is closed, the picture shows the closed border: the
      top line and the last bottom line are all wall, and every middle line starts and ends with '|'. */
  lemma DrawsClosedBorder(g: Grid)
    requires WellFormed(g) && BorderClosed(g) && g.rows > 0 && g.columns > 0
    ensures |TopLine(g.cells[0])| == 3 * g.columns + 1
    ensures forall x :: 0 <= x < |TopLine(g.cells[0])| ==> TopLine(g.cells[0])[x] in "+-"
    ensures |BottomLine(LastRow(g.cells))| == 3 * g.columns + 1
    ensures forall x :: 0 <= x < |BottomLine(LastRow(g.cells))| ==> BottomLine(LastRow(g.cells))[x] in "+-"
    ensures forall y :: 0 <= y < g.rows ==>
      |MiddleLine(g.cells[y])| == 3 * g.columns + 1 &&
      MiddleLine(g.cells[y])[0] == '|' && MiddleLine(g.cells[y])[3 * g.columns] == '|'
  {
    TopBorderDrawn(g);
    BottomBorderDrawn(g);
    forall y | 0 <= y < g.rows
      ensures |MiddleLine(g.cells[y])| == 3 * g.columns + 1
      ensures MiddleLine(g.cells[y])[0] == '|' && MiddleLine(g.cells[y])[3 * g.columns] == '|'
    {
      SideBordersDrawn(g, y);
    }
  }
}

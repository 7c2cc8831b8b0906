// What the bytes sent to a terminal do, in terms of cells, cursor and colours.

module TermLaws {
  import opened Options
  import opened TermModel

  // A byte that is shown.
  predicate Plain(c: char) {
    c != '\0' && c != '\U{7}' && c != '\U{8}' && c != '\t' && c != '\n' && c != '\r' && c != '\U{1B}'
  }

  predicate AllPlain(s: seq<char>) {
    forall i :: 0 <= i < |s| ==> Plain(s[i])
  }

  // A good terminal that is not in the middle of an escape sequence.
  ghost predicate Ready(g: Geometry, t: Tty) {
    GeometryOk(g) && TtyOk(g, t) && !t.parser.escape && !t.parser.control
  }

  // ---------- bytes one after the other ----------

  lemma {:induction false} FedConcat(g: Geometry, t: Tty, a: seq<char>, b: seq<char>)
    ensures Fed(g, t, a + b) == if Fed(g, t, a).Some? then Fed(g, Fed(g, t, a).value, b) else None
    decreases |b|
  {
    hide Put, Safe;
    if b == [] {
      assert a + b == a;
    } else {
      var n := |b| - 1;
      assert (a + b)[..|a| + n] == a + b[..n] && |a + b| - 1 == |a| + n && (a + b)[|a| + n] == b[n];
      FedConcat(g, t, a, b[..n]);
    }
  }

  lemma FedOne(g: Geometry, t: Tty, c: char)
    ensures Fed(g, t, [c]) == if Safe(t.parser, c) then Some(Put(g, t, c)) else None
  {
    hide Put, Safe;
    assert [c][..0] == [];
    assert Fed(g, t, [c][..0]) == Some(t);
  }

  lemma FedSnoc(g: Geometry, t: Tty, s: seq<char>, c: char)
    requires Fed(g, t, s).Some?
    ensures var u := Fed(g, t, s).value;
            Fed(g, t, s + [c]) == if Safe(u.parser, c) then Some(Put(g, u, c)) else None
  {
    FedConcat(g, t, s, [c]);
    FedOne(g, Fed(g, t, s).value, c);
  }

  // ---------- one byte outside escape sequences ----------

  // The grid one row further up, with a blank last row.
  ghost predicate RowsUp(g: Geometry, grid: seq<Cell>, blank: Cell, r: seq<Cell>) {
    && |r| == |grid|
    && forall k :: 0 <= k < |r| ==> r[k] == if k + g.cols < |grid| then grid[k + g.cols] else blank
  }

  lemma ScrollLaw(g: Geometry, t: Tty)
    requires Ready(g, t)
    ensures RowsUp(g, t.grid, Cell(' ', t.text.fg, t.text.bg), Scrolled(g, t).grid)
    ensures Scrolled(g, t) == t.(grid := Scrolled(g, t).grid)
  {
    AtLeastOneRow(g);
  }

  lemma AtLeastOneRow(g: Geometry)
    requires GeometryOk(g)
    ensures g.cols <= g.rows * g.cols
  {
    assert g.rows * g.cols == (g.rows - 1) * g.cols + g.cols;
  }

  // The cell of the cursor, counted row by row.
  lemma CursorCell(g: Geometry, t: Tty)
    requires Ready(g, t)
    ensures Index(g, t.cursor) == t.cursor.y * g.cols + t.cursor.x
    ensures 0 <= t.cursor.y * g.cols + t.cursor.x < |t.grid| == g.rows * g.cols
    ensures t.cursor.y * g.cols + t.cursor.x + 1 == |t.grid| <==> t.cursor == Pos(g.cols - 1, g.rows - 1)
  {
    hide ParserOk;
    LaterRow(g.cols, 0, t.cursor.y);
    LaterRow(g.cols, t.cursor.y, g.rows - 1);
    LaterRow(g.cols, g.rows - 1, g.rows);
  }

  lemma LaterRow(c: nat, y: nat, z: nat)
    ensures y < z ==> y * c + c <= z * c
    ensures z == y + 1 ==> y * c + c == z * c
  {
    if y < z {
      RowDistance(c, y, z);
      RowDistance(c, y, y + 1);
    }
  }

  lemma {:induction false} RowDistance(c: nat, y: nat, z: nat)
    requires y < z
    ensures y * c + c <= z * c && (z == y + 1 ==> y * c + c == z * c)
    decreases z
  {
    assert (z - 1) * c + c == z * c;
    if y < z - 1 {
      RowDistance(c, y, z - 1);
    }
  }

  // A byte that is shown fills the cell of the cursor in the current colours, and the cursor goes on to
  // the next cell, row by row; behind the last cell the rows move up and it goes on in the last row.
  lemma Text(g: Geometry, t: Tty, c: char)
    requires Ready(g, t) && Plain(c)
    ensures var u := Put(g, t, c);
            var at := t.cursor.y * g.cols + t.cursor.x;
            && 0 <= at < |t.grid| && u == t.(grid := u.grid, cursor := u.cursor)
            && var filled := t.grid[at := Cell(c, t.text.fg, t.text.bg)];
               if at + 1 < |t.grid| then
                 u.grid == filled && InGrid(g, u.cursor) && u.cursor.y * g.cols + u.cursor.x == at + 1
               else
                 u.cursor == Pos(0, g.rows - 1) && RowsUp(g, filled, Cell(' ', t.text.fg, t.text.bg), u.grid)
    ensures Ready(g, Put(g, t, c))
  {
    hide ParserOk, Scrolled, Csi;
    CursorCell(g, t);
    var p := Plotted(g, t, t.cursor, Cell(c, t.text.fg, t.text.bg));
    assert Put(g, t, c) == Advanced(g, p);
    PutKeepsExactly(g, t, c);
    if t.cursor.x + 1 == g.cols {
      assert (t.cursor.y + 1) * g.cols == t.cursor.y * g.cols + g.cols;
      ScrollLaw(g, p.(cursor := Pos(0, g.rows - 1)));
    }
  }

  // A new line begins at column 0 of the next row; in the last row the rows move up instead.
  lemma NewLine(g: Geometry, t: Tty)
    requires Ready(g, t)
    ensures var u := Put(g, t, '\n');
            && Ready(g, u)
            && if t.cursor.y + 1 < g.rows then u == t.(cursor := Pos(0, t.cursor.y + 1))
               else u == t.(cursor := Pos(0, g.rows - 1), grid := u.grid)
                    && RowsUp(g, t.grid, Cell(' ', t.text.fg, t.text.bg), u.grid)
  {
    hide ParserOk, Scrolled, Csi;
    PutKeepsExactly(g, t, '\n');
    ScrollLaw(g, t.(cursor := Pos(0, t.cursor.y)));
  }

  // The bytes that do no more than move the cursor, or nothing.
  lemma Motion(g: Geometry, t: Tty)
    requires Ready(g, t)
    ensures Put(g, t, '\r') == t.(cursor := Pos(0, t.cursor.y))
    ensures Put(g, t, '\0') == t && Put(g, t, '\U{7}') == t
    ensures t.cursor.x > 0 ==> Put(g, t, '\U{8}') == t.(cursor := Pos(t.cursor.x - 1, t.cursor.y))
    ensures t.cursor.x == 0 < t.cursor.y ==> Put(g, t, '\U{8}') == t.(cursor := Pos(g.cols - 1, t.cursor.y - 1))
    ensures t.cursor == Pos(0, 0) ==> Put(g, t, '\U{8}') == t
  {
    hide ParserOk, Scrolled, Csi, Advanced, Plotted;
  }

  // A tab goes to the next column that is a multiple of 8, if there is one.
  lemma Tabulator(g: Geometry, t: Tty, stop: nat)
    requires Ready(g, t) && stop % 8 == 0 && t.cursor.x < stop <= t.cursor.x + 8
    ensures Put(g, t, '\t') == if stop < g.cols then t.(cursor := Pos(stop, t.cursor.y)) else t
  {
    hide ParserOk, Scrolled, Csi, Advanced, Plotted;
    assert stop / 8 == t.cursor.x / 8 + 1;
  }

  // Backspace undoes the advance of the cursor, as long as no row moved up.
  lemma BackspaceUndoes(g: Geometry, t: Tty, c: char)
    requires Ready(g, t) && Plain(c) && t.cursor != Pos(g.cols - 1, g.rows - 1)
    ensures Put(g, Put(g, t, c), '\U{8}').cursor == t.cursor
    ensures var at := t.cursor.y * g.cols + t.cursor.x;
            at < |t.grid| && Put(g, Put(g, t, c), '\U{8}').grid == t.grid[at := Cell(c, t.text.fg, t.text.bg)]
  {
    hide ParserOk, Put;
    CursorCell(g, t);
    Text(g, t, c);
    var u := Put(g, t, c);
    Motion(g, u);
    SameCell(g, u.cursor, if t.cursor.x + 1 < g.cols then Pos(t.cursor.x + 1, t.cursor.y) else Pos(0, t.cursor.y + 1));
  }

  // Cells are numbered without repetition.
  lemma SameCell(g: Geometry, p: Pos, q: Pos)
    requires 0 <= p.x < g.cols && 0 <= q.x < g.cols && 0 <= p.y && 0 <= q.y && p.y * g.cols + p.x == q.y * g.cols + q.x
    ensures p == q
  {
    LaterRow(g.cols, p.y, q.y);
    LaterRow(g.cols, q.y, p.y);
  }

  // ---------- text ----------

  // A terminal set up, in numbers.
  lemma NewTerminal(g: Geometry)
    requires GeometryOk(g)
    ensures var t := NewTty(g);
            && Ready(g, t) && t.cursor == Pos(0, 0) && t.saved == Pos(0, 0) && t.cursorOn
            && t.text == t.defaults == Colours(0x00839496, 0x00002b36)
            && t.cursorColours == Colours(0x00002b36, 0x00839496)
            && |t.grid| == g.rows * g.cols
            && forall k :: 0 <= k < |t.grid| ==> t.grid[k] == Cell(' ', 0x00839496, 0x00002b36)
  {
  }

  // The text `s` lies row by row, the first `gone` cells of it above the top; the rest is blank.
  ghost predicate Lies(g: Geometry, u: Tty, s: seq<char>, gone: nat) {
    && gone <= |s| && |u.grid| == g.rows * g.cols && u.cursor.y * g.cols + u.cursor.x == |s| - gone
    && forall k :: 0 <= k < |u.grid| ==>
         u.grid[k] == Cell(if k + gone < |s| then s[k + gone] else ' ', 0x00839496, 0x00002b36)
  }

  lemma LiesMore(g: Geometry, t: Tty, s: seq<char>, gone: nat, c: char)
    requires Ready(g, t) && Plain(c) && Lies(g, t, s, gone) && t.text == Colours(0x00839496, 0x00002b36)
    ensures Ready(g, Put(g, t, c)) && Put(g, t, c).text == t.text
    ensures |s| - gone < g.rows * g.cols
    ensures Lies(g, Put(g, t, c), s + [c], if |s| + 1 - gone < g.rows * g.cols then gone else gone + g.cols)
  {
    hide Ready, Put, GeometryOk, Plain;
    Text(g, t, c);
    CursorCell(g, t);
    LaterRow(g.cols, g.rows - 1, g.rows);
    RowFits(g, t);
  }

  lemma RowFits(g: Geometry, t: Tty)
    requires Ready(g, t)
    ensures 0 < g.cols <= g.rows * g.cols == |t.grid|
  {
    AtLeastOneRow(g);
  }

  // Text of any length on a new terminal lies row by row: without the rows `up` that had to go, cell `k`
  // holds the byte that is `k` bytes behind them.  As many rows go as needed to hold the cursor, no more.
  lemma {:induction false} TextLiesRowByRow(g: Geometry, s: seq<char>, up: nat)
    requires GeometryOk(g) && AllPlain(s)
    requires |s| < (g.rows + up) * g.cols && (up > 0 ==> (g.rows + up - 1) * g.cols <= |s|)
    ensures Fed(g, NewTty(g), s).Some?
    ensures var u := Fed(g, NewTty(g), s).value;
            && Ready(g, u) && u.text == Colours(0x00839496, 0x00002b36) && 0 <= up * g.cols <= |s|
            && |u.grid| == g.rows * g.cols && u.cursor.y * g.cols + u.cursor.x == |s| - up * g.cols
            && forall k :: 0 <= k < |u.grid| ==>
                 u.grid[k] == Cell(if k + up * g.cols < |s| then s[k + up * g.cols] else ' ', 0x00839496, 0x00002b36)
    decreases |s|
  {
    hide Ready, Put, Safe, Plain, NewTty, Lies;
    NewTerminal(g);
    RowFits(g, NewTty(g));
    if s == [] {
      NoRowGone(g, up);
    } else {
      var n := |s| - 1;
      var before := UpBefore(g, n, up);
      TextLiesRowByRow(g, s[..n], before);
      var t := Fed(g, NewTty(g), s[..n]).value;
      LiesIs(g, t, s[..n], before * g.cols);
      LiesMore(g, t, s[..n], before * g.cols, s[n]);
      SafeOutside(g, t, s[n]);
      assert s[..n] + [s[n]] == s;
      LiesIs(g, Put(g, t, s[n]), s, up * g.cols);
    }
  }

  lemma SafeOutside(g: Geometry, t: Tty, c: char)
    requires Ready(g, t)
    ensures Safe(t.parser, c)
  {
  }

  lemma LiesIs(g: Geometry, u: Tty, s: seq<char>, gone: nat)
    ensures Lies(g, u, s, gone) <==>
              && gone <= |s| && |u.grid| == g.rows * g.cols && u.cursor.y * g.cols + u.cursor.x == |s| - gone
              && forall k :: 0 <= k < |u.grid| ==>
                   u.grid[k] == Cell(if k + gone < |s| then s[k + gone] else ' ', 0x00839496, 0x00002b36)
  {
  }

  lemma NoRowGone(g: Geometry, up: nat)
    requires GeometryOk(g) && (up > 0 ==> (g.rows + up - 1) * g.cols <= 0)
    ensures up == 0
  {
  }

  // The rows gone one byte earlier.
  lemma UpBefore(g: Geometry, n: nat, up: nat) returns (before: nat)
    requires GeometryOk(g) && n + 1 < (g.rows + up) * g.cols && (up > 0 ==> (g.rows + up - 1) * g.cols <= n + 1)
    ensures n < (g.rows + before) * g.cols && (before > 0 ==> (g.rows + before - 1) * g.cols <= n)
    ensures 0 <= before * g.cols
    ensures up * g.cols == if n + 1 - before * g.cols < g.rows * g.cols then before * g.cols else before * g.cols + g.cols
  {
    Distribute(g.rows, up, g.cols);
    if up > 0 {
      Distribute(g.rows, up - 1, g.cols);
    }
    before := if up == 0 || (g.rows + up - 1) * g.cols <= n then up else up - 1;
    if 0 < before < up {
      Distribute(g.rows, up - 2, g.cols);
    }
  }

  lemma Distribute(a: nat, b: nat, c: nat)
    ensures (a + b) * c == a * c + b * c && 0 <= b * c && (b + 1) * c == b * c + c
  {
  }

  // ---------- lines ----------

  // Parts with a byte between them.
  function Joined(parts: seq<seq<char>>, sep: char): seq<char> {
    if parts == [] then []
    else if |parts| == 1 then parts[0]
    else Joined(parts[..|parts| - 1], sep) + [sep] + parts[|parts| - 1]
  }

  // The cell at column `x` of row `y`.
  function CellAt(g: Geometry, t: Tty, x: int, y: int): Cell {
    if 0 <= y * g.cols + x < |t.grid| then t.grid[y * g.cols + x] else Cell(' ', 0, 0)
  }

  lemma Place(g: Geometry, t: Tty, x: int, y: int)
    requires Ready(g, t) && 0 <= x < g.cols && 0 <= y < g.rows
    ensures 0 <= y * g.cols + x < |t.grid| && CellAt(g, t, x, y) == t.grid[y * g.cols + x]
    ensures y * g.cols + x + g.cols < |t.grid| <==> y + 1 < g.rows
    ensures y + 1 < g.rows ==> CellAt(g, t, x, y + 1) == t.grid[y * g.cols + x + g.cols]
  {
    hide ParserOk;
    CursorCell(g, t.(cursor := Pos(x, y)));
    LaterRow(g.cols, y, y + 1);
    LaterRow(g.cols, y + 1, g.rows);
  }

  lemma TextAt(g: Geometry, t: Tty, c: char)
    requires Ready(g, t) && Plain(c) && t.cursor.x + 1 < g.cols
    ensures var u := Put(g, t, c);
            && Ready(g, u) && u == t.(grid := u.grid, cursor := Pos(t.cursor.x + 1, t.cursor.y))
            && forall x, y :: 0 <= x < g.cols && 0 <= y < g.rows ==>
                 CellAt(g, u, x, y)
                 == if x == t.cursor.x && y == t.cursor.y then Cell(c, t.text.fg, t.text.bg) else CellAt(g, t, x, y)
  {
    hide Ready, Put, CellAt;
    InReady(g, t);
    SafeOutside(g, t, c);
    Text(g, t, c);
    CursorCell(g, t);
    var u := Put(g, t, c);
    SameCell(g, u.cursor, Pos(t.cursor.x + 1, t.cursor.y));
    forall x, y | 0 <= x < g.cols && 0 <= y < g.rows
      ensures CellAt(g, u, x, y)
              == if x == t.cursor.x && y == t.cursor.y then Cell(c, t.text.fg, t.text.bg) else CellAt(g, t, x, y)
    {
      Place(g, t, x, y);
      Place(g, u, x, y);
      if y * g.cols + x == t.cursor.y * g.cols + t.cursor.x {
        SameCell(g, Pos(x, y), t.cursor);
      }
    }
  }

  lemma InReady(g: Geometry, t: Tty)
    requires Ready(g, t)
    ensures GeometryOk(g) && InGrid(g, t.cursor)
  {
  }

  lemma NewLineAt(g: Geometry, t: Tty)
    requires Ready(g, t)
    ensures var u := Put(g, t, '\n');
            && Ready(g, u)
            && u == t.(grid := u.grid, cursor := Pos(0, if t.cursor.y + 1 < g.rows then t.cursor.y + 1 else g.rows - 1))
            && (t.cursor.y + 1 < g.rows ==> u.grid == t.grid)
            && (t.cursor.y + 1 == g.rows ==>
                  forall x, y :: 0 <= x < g.cols && 0 <= y < g.rows ==>
                    CellAt(g, u, x, y) == if y + 1 < g.rows then CellAt(g, t, x, y + 1) else Cell(' ', t.text.fg, t.text.bg))
  {
    hide Ready, Put, CellAt;
    InReady(g, t);
    SafeOutside(g, t, '\n');
    NewLine(g, t);
    var u := Put(g, t, '\n');
    if t.cursor.y + 1 == g.rows {
      forall x, y | 0 <= x < g.cols && 0 <= y < g.rows
        ensures CellAt(g, u, x, y) == if y + 1 < g.rows then CellAt(g, t, x, y + 1) else Cell(' ', t.text.fg, t.text.bg)
      {
        Place(g, t, x, y);
        Place(g, u, x, y);
      }
    }
  }

  lemma SameGrid(g: Geometry, t: Tty, u: Tty)
    requires u.grid == t.grid
    ensures forall x, y :: CellAt(g, u, x, y) == CellAt(g, t, x, y)
  {
  }

  // Text that ends before the row does.
  lemma {:induction false} LineText(g: Geometry, t: Tty, s: seq<char>)
    requires Ready(g, t) && AllPlain(s) && t.cursor.x + |s| < g.cols
    ensures Fed(g, t, s).Some?
    ensures var u := Fed(g, t, s).value;
            && Ready(g, u) && u == t.(grid := u.grid, cursor := Pos(t.cursor.x + |s|, t.cursor.y))
            && forall x, y :: 0 <= x < g.cols && 0 <= y < g.rows ==>
                 CellAt(g, u, x, y)
                 == if y == t.cursor.y && t.cursor.x <= x < t.cursor.x + |s|
                    then Cell(s[x - t.cursor.x], t.text.fg, t.text.bg) else CellAt(g, t, x, y)
    decreases |s|
  {
    hide Ready, Put, CellAt, Safe, Plain;
    if s != [] {
      var n := |s| - 1;
      LineText(g, t, s[..n]);
      var u := Fed(g, t, s[..n]).value;
      SafeOutside(g, u, s[n]);
      TextAt(g, u, s[n]);
    }
  }

  // The character that column `x` of line `i` holds, blank where there is none.
  function LineCell(lines: seq<seq<char>>, x: nat, i: nat): Cell {
    Cell(if i < |lines| && x < |lines[i]| then lines[i][x] else ' ', 0x00839496, 0x00002b36)
  }

  // The lines from number `up` on stand in the rows.
  ghost predicate Rows(g: Geometry, u: Tty, lines: seq<seq<char>>, up: nat) {
    forall x: nat, y: nat :: x < g.cols && y < g.rows ==> CellAt(g, u, x, y) == LineCell(lines, x, y + up)
  }

  // The last lines stand in the rows, the rest is blank, and the cursor is behind the last one.
  ghost predicate ShowsLines(g: Geometry, u: Tty, lines: seq<seq<char>>) {
    var up := if |lines| <= g.rows then 0 else |lines| - g.rows;
    && lines != [] && u.cursor == Pos(|lines[|lines| - 1]|, |lines| - 1 - up)
    && u.text == Colours(0x00839496, 0x00002b36) && Rows(g, u, lines, up)
  }

  lemma LineCells(lines: seq<seq<char>>, line: seq<char>, x: nat, i: nat)
    ensures LineCell(lines + [line], x, i)
            == if i == |lines| && x < |line| then Cell(line[x], 0x00839496, 0x00002b36) else LineCell(lines, x, i)
    ensures i >= |lines| ==> LineCell(lines, x, i) == Cell(' ', 0x00839496, 0x00002b36)
  {
  }

  lemma RowStarted(g: Geometry, t: Tty, lines: seq<seq<char>>, up: nat)
    requires Ready(g, t) && Rows(g, t, lines, up) && t.text == Colours(0x00839496, 0x00002b36)
    requires 0 <= t.cursor.y < g.rows && t.cursor.y + up + 1 == |lines|
    ensures Rows(g, Put(g, t, '\n'), lines, if t.cursor.y + 1 < g.rows then up else up + 1)
  {
    hide Ready, Put, CellAt, LineCell;
    NewLineAt(g, t);
    SafeOutside(g, t, '\n');
    var v := Put(g, t, '\n');
    if t.cursor.y + 1 < g.rows {
      SameGrid(g, t, v);
    } else {
      forall x: nat, y: nat | x < g.cols && y < g.rows
        ensures CellAt(g, v, x, y) == LineCell(lines, x, y + up + 1)
      {
        LineCells(lines, [], x, y + up + 1);
        if y + 1 < g.rows {
          assert CellAt(g, t, x, y + 1) == LineCell(lines, x, y + 1 + up);
        }
      }
    }
  }

  lemma RowFilled(g: Geometry, v: Tty, lines: seq<seq<char>>, up: nat, line: seq<char>)
    requires Ready(g, v) && Rows(g, v, lines, up) && v.text == Colours(0x00839496, 0x00002b36)
    requires v.cursor == Pos(0, |lines| - up) && AllPlain(line) && |line| < g.cols
    ensures Fed(g, v, line).Some? && Rows(g, Fed(g, v, line).value, lines + [line], up)
  {
    hide Ready, Put, CellAt, LineCell, Fed, AllPlain;
    LineText(g, v, line);
    var u := Fed(g, v, line).value;
    forall x: nat, y: nat | x < g.cols && y < g.rows
      ensures CellAt(g, u, x, y) == LineCell(lines + [line], x, y + up)
    {
      LineCells(lines, line, x, y + up);
    }
  }

  lemma LineMore(g: Geometry, t: Tty, lines: seq<seq<char>>, line: seq<char>)
    requires Ready(g, t) && ShowsLines(g, t, lines) && AllPlain(line) && |line| < g.cols
    ensures Fed(g, t, ['\n'] + line).Some?
    ensures Ready(g, Fed(g, t, ['\n'] + line).value) && ShowsLines(g, Fed(g, t, ['\n'] + line).value, lines + [line])
  {
    hide Ready, Put, Safe, AllPlain, Fed, Rows;
    InReady(g, t);
    SafeOutside(g, t, '\n');
    FedOne(g, t, '\n');
    FedConcat(g, t, ['\n'], line);
    NewLineAt(g, t);
    var up := if |lines| <= g.rows then 0 else |lines| - g.rows;
    RowStarted(g, t, lines, up);
    var v := Put(g, t, '\n');
    LineText(g, v, line);
    RowFilled(g, v, lines, if t.cursor.y + 1 < g.rows then up else up + 1, line);
  }

  lemma {:induction false} LinesShown(g: Geometry, lines: seq<seq<char>>)
    requires GeometryOk(g) && lines != []
    requires forall i :: 0 <= i < |lines| ==> AllPlain(lines[i]) && |lines[i]| < g.cols
    ensures Fed(g, NewTty(g), Joined(lines, '\n')).Some?
    ensures var u := Fed(g, NewTty(g), Joined(lines, '\n')).value;
            Ready(g, u) && ShowsLines(g, u, lines)
    decreases |lines|
  {
    hide Ready, AllPlain, NewTty, Fed, CellAt;
    NewTerminal(g);
    var t0, n := NewTty(g), |lines| - 1;
    if n == 0 {
      BlankAt(g);
      LineText(g, t0, lines[0]);
    } else {
      hide ShowsLines;
      LinesShown(g, lines[..n]);
      var text := Joined(lines[..n], '\n');
      LineMore(g, Fed(g, t0, text).value, lines[..n], lines[n]);
      FedConcat(g, t0, text, ['\n'] + lines[n]);
      assert text + (['\n'] + lines[n]) == Joined(lines, '\n') && lines[..n] + [lines[n]] == lines;
    }
  }

  // Lines shorter than a row, on a new terminal: line `i` stands in row `i`; of more lines than
  // rows, the last ones stand there; everything else is blank.
  lemma LinesLie(g: Geometry, lines: seq<seq<char>>, up: nat)
    requires GeometryOk(g) && lines != []
    requires forall i :: 0 <= i < |lines| ==> AllPlain(lines[i]) && |lines[i]| < g.cols
    requires up == if |lines| <= g.rows then 0 else |lines| - g.rows
    ensures Fed(g, NewTty(g), Joined(lines, '\n')).Some?
    ensures var u := Fed(g, NewTty(g), Joined(lines, '\n')).value;
            && Ready(g, u) && u.cursor == Pos(|lines[|lines| - 1]|, |lines| - 1 - up)
            && forall x: nat, y: nat :: x < g.cols && y < g.rows ==>
                 CellAt(g, u, x, y)
                 == Cell(if y + up < |lines| && x < |lines[y + up]| then lines[y + up][x] else ' ', 0x00839496, 0x00002b36)
  {
    hide Ready, AllPlain, NewTty, Fed, CellAt, Joined;
    LinesShown(g, lines);
  }

  lemma BlankAt(g: Geometry)
    requires GeometryOk(g)
    ensures forall x, y :: 0 <= x < g.cols && 0 <= y < g.rows ==>
              CellAt(g, NewTty(g), x, y) == Cell(' ', 0x00839496, 0x00002b36)
  {
    hide Ready, CellAt, NewTty;
    NewTerminal(g);
    forall x, y | 0 <= x < g.cols && 0 <= y < g.rows
      ensures CellAt(g, NewTty(g), x, y) == Cell(' ', 0x00839496, 0x00002b36)
    {
      Place(g, NewTty(g), x, y);
    }
  }
}

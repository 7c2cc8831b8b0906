// The terminal as a value: what one byte written to a terminal makes of its grid, cursor and
// escape state.  How the screen follows it is in Terminal.dfy.

module TermModel {
  import opened Options

  const MAX_ESC_VALUES: nat := 256
  const TAB_SIZE: nat := 8
  const MAX_TTYS: nat := 6

  const NUL: char := '\0'
  const BELL: char := '\U{7}'
  const BACKSPACE: char := '\U{8}'
  const TAB: char := '\t'
  const NEWLINE: char := '\n'
  const RETURN: char := '\r'
  const ESCAPE: char := '\U{1B}'

  // The most rows and columns there are: a display has at most 4095 pixels a side.
  const MAX_SIDE: nat := 4095

  // A C `int`, which wraps around.
  const INT_MAX: int := 0x7fff_ffff
  const INT_MIN: int := -0x8000_0000

  function Int(v: int): (r: int)
    ensures INT_MIN <= r <= INT_MAX
    ensures INT_MIN <= v <= INT_MAX ==> r == v
  {
    (v + 0x8000_0000) % 0x1_0000_0000 - 0x8000_0000
  }

  // A character with its colours.
  datatype Cell = Cell(c: char, fg: bv32, bg: bv32)

  datatype Geometry = Geometry(rows: nat, cols: nat)

  datatype Pos = Pos(x: int, y: int)

  datatype Colours = Colours(fg: bv32, bg: bv32)

  // The state of the escape sequence parser: the parameters read so far are `values[..count]`, and
  // `digits` says that one more is being read.
  datatype Parser = Parser(escape: bool, control: bool, values: seq<int>, count: nat, digits: bool)

  datatype Tty = Tty(
    cursor: Pos,
    cursorOn: bool,
    cursorColours: Colours,
    text: Colours,
    defaults: Colours,
    grid: seq<Cell>,
    parser: Parser,
    saved: Pos,
    region: Pos,
    decPrivate: bool,
    decckm: bool)

  const ANSI_COLOURS: seq<bv32> := [
    0x00073642, 0x00dc322f, 0x00859900, 0x00b58900, 0x00268bd2, 0x00d33682, 0x002aa198, 0x00eee8d5
  ]

  ghost predicate GeometryOk(g: Geometry) {
    0 < g.rows <= MAX_SIDE && 0 < g.cols <= MAX_SIDE
  }

  ghost predicate InGrid(g: Geometry, p: Pos) {
    0 <= p.x < g.cols && 0 <= p.y < g.rows
  }

  ghost predicate ParserOk(p: Parser) {
    && |p.values| == MAX_ESC_VALUES && p.count <= MAX_ESC_VALUES
    && (p.digits ==> p.count < MAX_ESC_VALUES)
    && forall i :: 0 <= i < |p.values| ==> INT_MIN <= p.values[i] <= INT_MAX
  }

  // A terminal in a good state: cursor and saved cursor inside the grid, and the parameters of an
  // escape sequence within their table.
  ghost predicate TtyOk(g: Geometry, t: Tty) {
    |t.grid| == g.rows * g.cols && InGrid(g, t.cursor) && InGrid(g, t.saved) && ParserOk(t.parser)
  }

  // A terminal as it is set up.
  function NewTty(g: Geometry): (t: Tty)
    ensures GeometryOk(g) ==> TtyOk(g, t)
  {
    var text := Colours(0x00839496, 0x00002b36);
    Tty(Pos(0, 0), true, Colours(0x00002b36, 0x00839496), text, text, seq(g.rows * g.cols, _ => Cell(' ', text.fg, text.bg)),
        Parser(false, false, seq(MAX_ESC_VALUES, _ => 0), 0, false), Pos(0, 0), Pos(0, 0), false, false)
  }

  function Index(g: Geometry, p: Pos): int {
    p.x + p.y * g.cols
  }

  lemma IndexInGrid(g: Geometry, p: Pos)
    requires InGrid(g, p)
    ensures 0 <= Index(g, p) < g.rows * g.cols
  {
    assert p.y * g.cols <= (g.rows - 1) * g.cols;
    assert g.rows * g.cols == (g.rows - 1) * g.cols + g.cols;
  }

  // Cell `i` is at column `i % cols` of row `i / cols`.
  function PosOf(g: Geometry, i: int): Pos
    requires g.cols > 0
  {
    Pos(i % g.cols, i / g.cols)
  }

  lemma PosOfIndex(g: Geometry, i: int)
    requires g.cols > 0 && 0 <= i < g.rows * g.cols
    ensures InGrid(g, PosOf(g, i)) && Index(g, PosOf(g, i)) == i
  {
    var q := i / g.cols;
    assert q * g.cols <= i < g.rows * g.cols;
    assert q >= g.rows ==> q * g.cols >= g.rows * g.cols;
  }

  function Blank(t: Tty): Cell {
    Cell(' ', t.text.fg, t.text.bg)
  }

  // ---------- grid ----------

  function Plotted(g: Geometry, t: Tty, p: Pos, cell: Cell): Tty {
    if 0 <= Index(g, p) < |t.grid| then t.(grid := t.grid[Index(g, p) := cell]) else t
  }

  // Every row moves up one and the last is blank.
  function Scrolled(g: Geometry, t: Tty): Tty {
    if g.cols <= |t.grid| then t.(grid := t.grid[g.cols..] + seq(g.cols, _ => Blank(t))) else t
  }

  // The first `n` cells blank.
  function Erased(t: Tty, n: int): Tty {
    if 0 <= n <= |t.grid| then t.(grid := seq(n, _ => Blank(t)) + t.grid[n..]) else t
  }

  // ---------- escape sequences ----------

  // The text colours after the parameters from `i` on.
  function Sgr(text: Colours, defaults: Colours, values: seq<int>): Colours
    decreases |values|
  {
    if values == [] then text
    else
      var v := values[0];
      var next :=
        if v == 0 then defaults
        else if 30 <= v <= 37 then text.(fg := ANSI_COLOURS[v - 30])
        else if 40 <= v <= 47 then text.(bg := ANSI_COLOURS[v - 40])
        else text;
      Sgr(next, defaults, values[1..])
  }

  // A parameter, 1 if it was left out.
  function Param(p: Parser, i: nat): int {
    if i < p.count && i < |p.values| then p.values[i] else 1
  }

  function Clamp(v: int, top: int): int {
    if v >= top then top - 1 else v
  }

  // Where the cursor goes at the final byte `c` of a control sequence with parameters `v` and `w`.
  function Target(g: Geometry, t: Tty, c: char, v: int, w: int): Pos {
    var x, y := t.cursor.x, t.cursor.y;
    match c
    case 'A' => Pos(x, if v > y then 0 else Int(y - v))
    case 'B' => Pos(x, if Int(y + v) > g.rows - 1 then g.rows - 1 else Int(y + v))
    case 'C' => Pos(if Int(x + v) > g.cols - 1 then g.cols - 1 else Int(x + v), y)
    case 'D' => Pos(if v > x then 0 else Int(x - v), y)
    case 'E' => Pos(0, if Int(y + v) >= g.rows then g.rows - 1 else Int(y + v))
    case 'F' => Pos(0, if Int(y - v) < 0 then 0 else Int(y - v))
    case 'd' => if v >= g.rows then t.cursor else Pos(x, v)
    case 'G' => if v >= g.cols then t.cursor else Pos(v, y)
    case '`' => if v >= g.cols then t.cursor else Pos(v, y)
    case 'H' => Pos(Clamp(Int(w - 1), g.cols), Clamp(Int(v - 1), g.rows))
    case 'f' => Pos(Clamp(Int(w - 1), g.cols), Clamp(Int(v - 1), g.rows))
    case 'u' => t.saved
    case 'J' => if v == 2 then Pos(0, 0) else t.cursor
    case _ => t.cursor
  }

  // The rest of the effect of the final byte.
  function Effect(g: Geometry, t: Tty, c: char, v: int, w: int): Tty {
    match c
    case 'J' => if v == 1 then Erased(t, Index(g, t.cursor)) else if v == 2 then Erased(t, |t.grid|) else t
    case 'm' =>
      if t.parser.count == 0 || t.parser.count > |t.parser.values| then t.(text := t.defaults)
      else t.(text := Sgr(t.text, t.defaults, t.parser.values[..t.parser.count]))
    case 'r' => t.(region := Pos(v, w))
    case 's' => t.(saved := t.cursor)
    case 'h' => if t.decPrivate then t.(decPrivate := false, decckm := w == 1 || t.decckm) else t
    case 'l' => if t.decPrivate then t.(decPrivate := false, decckm := w != 1 && t.decckm) else t
    case _ => t
  }

  function Final(g: Geometry, t: Tty, c: char): Tty {
    var v, w := Param(t.parser, 0), Param(t.parser, 1);
    Effect(g, t, c, v, w).(cursor := Target(g, t, c, v, w))
  }

  // The parameter being read, if any, is complete.
  function Closed(p: Parser): Parser {
    if p.digits then p.(count := p.count + 1, digits := false) else p
  }

  function Defaulted(p: Parser): Parser {
    p.(values := seq(|p.values|, i requires 0 <= i => Param(p, i)))
  }

  function Digit(c: char): int {
    c as int - '0' as int
  }

  // A byte that reads parameters.
  predicate ReadsParam(c: char) {
    '0' <= c <= '9' || c == ';'
  }

  function Parsed(p: Parser, c: char): Parser
    requires p.escape && p.control && Safe(p, c) && ReadsParam(c)
  {
    if '0' <= c <= '9' then
      p.(digits := true, values := p.values[p.count := Int(p.values[p.count] * 10 + Digit(c))])
    else if p.digits then Closed(p)
    else p.(values := p.values[p.count := 1], count := p.count + 1)
  }

  // One byte inside a control sequence.
  function Csi(g: Geometry, t: Tty, c: char): Tty
    requires t.parser.escape && t.parser.control && Safe(t.parser, c)
  {
    if ReadsParam(c) then
      t.(parser := Parsed(t.parser, c))
    else
      var u := t.(parser := Defaulted(Closed(t.parser)));
      if c == '?' then u.(decPrivate := true)
      else Final(g, u, c).(parser := u.parser.(control := false, escape := false))
  }

  // ---------- one byte ----------

  // Where text goes on after the cursor's cell has been filled.
  function Advanced(g: Geometry, t: Tty): Tty {
    var u := t.(cursor := if t.cursor.x + 1 == g.cols then Pos(0, t.cursor.y + 1) else Pos(t.cursor.x + 1, t.cursor.y));
    if u.cursor.y == g.rows then Scrolled(g, u.(cursor := Pos(u.cursor.x, g.rows - 1))) else u
  }

  // A byte outside escape sequences.
  function Printed(g: Geometry, t: Tty, c: char): Tty {
    var x, y := t.cursor.x, t.cursor.y;
    if c == NUL || c == BELL then t
    else if c == ESCAPE then t.(parser := t.parser.(escape := true))
    else if c == TAB then
      var stop := (x / TAB_SIZE + 1) * TAB_SIZE;
      if stop >= g.cols then t else t.(cursor := Pos(stop, y))
    else if c == RETURN then t.(cursor := Pos(0, y))
    else if c == NEWLINE then
      if y == g.rows - 1 then Scrolled(g, t.(cursor := Pos(0, y))) else t.(cursor := Pos(0, y + 1))
    else if c == BACKSPACE then
      if x == 0 && y == 0 then t
      else t.(cursor := if x != 0 then Pos(x - 1, y) else Pos(g.cols - 1, y - 1))
    else
      Advanced(g, Plotted(g, t, t.cursor, Cell(c, t.text.fg, t.text.bg)))
  }

  function Put(g: Geometry, t: Tty, c: char): Tty
    requires Safe(t.parser, c)
  {
    if !t.parser.escape then Printed(g, t, c)
    else if t.parser.control then Csi(g, t, c)
    else if c == '[' then t.(parser := Parser(true, true, seq(MAX_ESC_VALUES, _ => 0), 0, false))
    else t.(parser := t.parser.(escape := false))
  }

  // What the code asks of its input: no parameter beyond the table.
  predicate Safe(p: Parser, c: char) {
    p.escape && p.control && ('0' <= c <= '9' || (c == ';' && !p.digits)) ==> p.count < |p.values|
  }

  // The final byte `c` with parameters `v` and `w` takes a cursor from inside the grid to outside it:
  // the step up or left is negative and too large, the sum of position and parameter is no `int` or
  // negative, or the position itself is not positive.
  predicate Leaves(g: Geometry, cursor: Pos, c: char, v: int, w: int) {
    match c
    case 'A' => v <= cursor.y - g.rows
    case 'B' => !(0 <= cursor.y + v <= INT_MAX)
    case 'C' => !(0 <= cursor.x + v <= INT_MAX)
    case 'D' => v <= cursor.x - g.cols
    case 'E' => !(0 <= cursor.y + v <= INT_MAX)
    case 'F' => cursor.y - INT_MAX <= v <= cursor.y - g.rows
    case 'd' => v < 0
    case 'G' => v < 0
    case '`' => v < 0
    case 'H' => INT_MIN < v <= 0 || INT_MIN < w <= 0
    case 'f' => INT_MIN < v <= 0 || INT_MIN < w <= 0
    case _ => false
  }

  // The byte completes a control sequence that does so.
  predicate LeavesGrid(g: Geometry, t: Tty, c: char) {
    t.parser.escape && t.parser.control && Leaves(g, t.cursor, c, Param(Closed(t.parser), 0), Param(Closed(t.parser), 1))
  }

  lemma ParamOk(p: Parser, i: nat)
    requires ParserOk(p)
    ensures INT_MIN <= Param(p, i) <= INT_MAX && ParserOk(Closed(p))
    ensures i < |p.values| ==> Param(Defaulted(p), i) == Param(p, i)
  {
  }

  lemma TargetExactly(g: Geometry, t: Tty, c: char, v: int, w: int)
    requires GeometryOk(g) && InGrid(g, t.cursor) && InGrid(g, t.saved)
    requires INT_MIN <= v <= INT_MAX && INT_MIN <= w <= INT_MAX
    ensures InGrid(g, Target(g, t, c, v, w)) <==> !Leaves(g, t.cursor, c, v, w)
  {
    hide Int;
    Wraps(t.cursor.y + v);
    Wraps(t.cursor.x + v);
    Wraps(t.cursor.y - v);
    Wraps(t.cursor.x - v);
    Wraps(v - 1);
    Wraps(w - 1);
  }

  // One step beyond the range of an `int` ends at its other end.
  lemma Wraps(v: int)
    ensures INT_MAX < v <= INT_MAX + 0x1_0000_0000 ==> Int(v) == v - 0x1_0000_0000
    ensures INT_MIN - 0x1_0000_0000 <= v < INT_MIN ==> Int(v) == v + 0x1_0000_0000
  {
  }

  lemma EffectKeeps(g: Geometry, t: Tty, c: char, v: int, w: int)
    requires InGrid(g, t.cursor) && InGrid(g, t.saved) && |t.grid| == g.rows * g.cols
    ensures var u := Effect(g, t, c, v, w);
            |u.grid| == |t.grid| && InGrid(g, u.saved) && u.parser == t.parser
  {
  }

  lemma CsiKeepsExactly(g: Geometry, t: Tty, c: char)
    requires GeometryOk(g) && TtyOk(g, t) && Safe(t.parser, c) && t.parser.escape && t.parser.control
    ensures TtyOk(g, Csi(g, t, c)) <==> !LeavesGrid(g, t, c)
    ensures LeavesGrid(g, t, c) ==> !InGrid(g, Csi(g, t, c).cursor)
  {
    hide Target, Effect;
    var p := Closed(t.parser);
    ParamOk(t.parser, 0);
    if !ReadsParam(c) && c != '?' {
      var u := t.(parser := Defaulted(p));
      ParamOk(p, 0);
      ParamOk(p, 1);
      ParamOk(u.parser, 0);
      ParamOk(u.parser, 1);
      TargetExactly(g, u, c, Param(u.parser, 0), Param(u.parser, 1));
      EffectKeeps(g, u, c, Param(u.parser, 0), Param(u.parser, 1));
    }
  }

  lemma ScrolledKeeps(g: Geometry, t: Tty)
    ensures |Scrolled(g, t).grid| == |t.grid|
    ensures Scrolled(g, t) == t.(grid := Scrolled(g, t).grid)
  {
  }

  lemma AdvancedKeeps(g: Geometry, t: Tty)
    requires GeometryOk(g) && TtyOk(g, t)
    ensures TtyOk(g, Advanced(g, t))
  {
    hide ParserOk, Scrolled;
    ScrolledKeeps(g, t.(cursor := Pos(0, g.rows - 1)));
    ScrolledKeeps(g, t.(cursor := Pos(t.cursor.x + 1, g.rows - 1)));
  }

  lemma PrintedKeeps(g: Geometry, t: Tty, c: char)
    requires GeometryOk(g) && TtyOk(g, t)
    ensures TtyOk(g, Printed(g, t, c))
  {
    hide ParserOk, Scrolled, Advanced;
    EscapeParserOk(t.parser);
    ScrolledKeeps(g, t.(cursor := Pos(0, t.cursor.y)));
    AdvancedKeeps(g, Plotted(g, t, t.cursor, Cell(c, t.text.fg, t.text.bg)));
  }

  lemma EscapeParserOk(p: Parser)
    requires ParserOk(p)
    ensures ParserOk(p.(escape := true))
  {
  }

  // Every byte that fits the parameter table keeps the terminal in a good state, unless it completes a
  // control sequence with a parameter out of range; and exactly those put the cursor outside the grid.
  lemma PutKeepsExactly(g: Geometry, t: Tty, c: char)
    requires GeometryOk(g) && TtyOk(g, t) && Safe(t.parser, c)
    ensures TtyOk(g, Put(g, t, c)) <==> !LeavesGrid(g, t, c)
    ensures LeavesGrid(g, t, c) ==> !InGrid(g, Put(g, t, c).cursor)
  {
    hide Csi, Printed;
    if !t.parser.escape {
      PrintedKeeps(g, t, c);
    } else if t.parser.control {
      CsiKeepsExactly(g, t, c);
    }
  }

  // Four bytes do that to a new terminal of any size: ESC [ 0 H takes the cursor above the first row.
  lemma ZeroHomeEscapes(g: Geometry)
    requires GeometryOk(g)
    ensures var t1 := Put(g, NewTty(g), ESCAPE);
            var t2 := Put(g, t1, '[');
            var t3 := Put(g, t2, '0');
            && TtyOk(g, t3) && Safe(t3.parser, 'H') && LeavesGrid(g, t3, 'H')
            && Put(g, t3, 'H').cursor == Pos(0, -1)
  {
    hide Sgr;
    var t3 := Put(g, Put(g, Put(g, NewTty(g), ESCAPE), '['), '0');
    assert t3.parser.values[0] == 0 && Closed(t3.parser).count == 1;
    var u := t3.(parser := Defaulted(Closed(t3.parser)));
    assert Param(u.parser, 0) == 0 && Param(u.parser, 1) == 1;
    assert Put(g, t3, 'H').cursor == Target(g, u, 'H', 0, 1);
  }

  // ---------- overflow ----------

  predicate AllDigits(s: seq<char>) {
    forall i :: 0 <= i < |s| ==> '0' <= s[i] <= '9'
  }

  // The number that digits write.
  function Decimal(s: seq<char>): int {
    if s == [] then 0 else Decimal(s[..|s| - 1]) * 10 + Digit(s[|s| - 1])
  }

  // A terminal after bytes that fit the parameter table.
  function Fed(g: Geometry, t: Tty, s: seq<char>): Option<Tty> {
    if s == [] then Some(t)
    else
      var r := Fed(g, t, s[..|s| - 1]);
      if r.Some? && Safe(r.value.parser, s[|s| - 1]) then Some(Put(g, r.value, s[|s| - 1])) else None
  }

  // A multiple of the word does not show in an `int`.
  lemma IntStep(v: int, d: int)
    ensures Int(Int(v) * 10 + d) == Int(v * 10 + d)
  {
    var q := (v + 0x8000_0000) / 0x1_0000_0000;
    assert Int(v) == v - q * 0x1_0000_0000;
    IntShift(v * 10 + d, -10 * q);
    assert Int(v) * 10 + d == v * 10 + d + (-10 * q) * 0x1_0000_0000;
  }

  lemma IntShift(v: int, k: int)
    ensures Int(v + k * 0x1_0000_0000) == Int(v)
  {
    assert (v + 0x8000_0000 + k * 0x1_0000_0000) / 0x1_0000_0000 == (v + 0x8000_0000) / 0x1_0000_0000 + k;
  }

  // A parameter is read as the number its digits write, cut to an `int`.
  lemma {:induction false} ParameterRead(g: Geometry, t: Tty, s: seq<char>)
    requires t.parser.escape && t.parser.control && t.parser.count < |t.parser.values| && AllDigits(s) && s != []
    requires t.parser.values[t.parser.count] == 0
    ensures var p := t.parser;
            Fed(g, t, s) == Some(t.(parser := p.(digits := true, values := p.values[p.count := Int(Decimal(s))])))
    decreases |s|
  {
    hide Int, Put;
    var n := |s| - 1;
    IntStep(Decimal(s[..n]), Digit(s[n]));
    if n > 0 {
      ParameterRead(g, t, s[..n]);
      DigitRead(g, Fed(g, t, s[..n]).value, s[n]);
    } else {
      assert Fed(g, t, s[..n]) == Some(t) && Decimal(s[..n]) == 0;
      DigitRead(g, t, s[n]);
    }
    var v, w := Int(Decimal(s[..n])), Int(Decimal(s));
    assert t.parser.values[t.parser.count := v][t.parser.count := w] == t.parser.values[t.parser.count := w];
  }

  lemma DigitRead(g: Geometry, t: Tty, c: char)
    requires t.parser.escape && t.parser.control && t.parser.count < |t.parser.values| && '0' <= c <= '9'
    ensures var p := t.parser;
            && Safe(p, c)
            && Put(g, t, c)
               == t.(parser := p.(digits := true, values := p.values[p.count := Int(p.values[p.count] * 10 + Digit(c))]))
  {
    hide Int;
  }

  lemma DecimalAt(s: seq<char>, n: nat)
    requires n < |s|
    ensures Decimal(s[..n + 1]) == Decimal(s[..n]) * 10 + Digit(s[n])
  {
    assert s[..n + 1][..n] == s[..n];
  }

  // Five digits behind the first `n`.
  lemma DecimalFive(s: seq<char>, n: nat)
    requires n + 5 <= |s|
    ensures Decimal(s[..n + 5])
            == Decimal(s[..n]) * 100000 + Digit(s[n]) * 10000 + Digit(s[n + 1]) * 1000 + Digit(s[n + 2]) * 100
               + Digit(s[n + 3]) * 10 + Digit(s[n + 4])
  {
    hide Decimal, Digit;
    DecimalAt(s, n);
    DecimalAt(s, n + 1);
    DecimalAt(s, n + 2);
    DecimalAt(s, n + 3);
    DecimalAt(s, n + 4);
  }

  lemma DecimalNone(s: seq<char>)
    ensures Decimal(s[..0]) == 0
  {
  }

  lemma TenDigits(s: seq<char>)
    requires |s| == 10
    ensures Decimal(s)
            == (Digit(s[0]) * 10000 + Digit(s[1]) * 1000 + Digit(s[2]) * 100 + Digit(s[3]) * 10 + Digit(s[4])) * 100000
               + Digit(s[5]) * 10000 + Digit(s[6]) * 1000 + Digit(s[7]) * 100 + Digit(s[8]) * 10 + Digit(s[9])
  {
    hide Decimal, Digit;
    DecimalNone(s);
    DecimalFive(s, 0);
    DecimalFive(s, 5);
    assert s[..10] == s;
  }

  // A new terminal of at least two rows after a new line and the start of a control sequence.
  function Started(g: Geometry): Tty {
    Put(g, Put(g, Put(g, NewTty(g), NEWLINE), ESCAPE), '[')
  }

  lemma ReadsNumber(g: Geometry, s: seq<char>, c: char)
    requires GeometryOk(g) && g.rows >= 2 && |s| == 10 && AllDigits(s) && !ReadsParam(c) && c != '?'
    ensures Fed(g, Started(g), s).Some?
    ensures var t := Fed(g, Started(g), s).value;
            && TtyOk(g, t) && Safe(t.parser, c) && t.cursor == Pos(0, 1) && t.parser.escape && t.parser.control
            && Param(Closed(t.parser), 0) == Int(Decimal(s)) && Param(Closed(t.parser), 1) == 1
            && Put(g, t, c).cursor == Target(g, t, c, Int(Decimal(s)), 1)
  {
    hide Int, Target, Effect, Decimal, Fed, Csi;
    var t0 := Started(g);
    assert t0.cursor == Pos(0, 1);
    ParameterRead(g, t0, s);
    var t := Fed(g, t0, s).value;
    assert t.parser.values[0] == Int(Decimal(s)) && Closed(t.parser).count == 1;
    FinalCursor(g, t, c);
  }

  // The final byte of a control sequence moves the cursor by the parameters read.
  lemma FinalCursor(g: Geometry, t: Tty, c: char)
    requires TtyOk(g, t) && Safe(t.parser, c) && t.parser.escape && t.parser.control && !ReadsParam(c) && c != '?'
    ensures Csi(g, t, c).cursor == Target(g, t, c, Param(Closed(t.parser), 0), Param(Closed(t.parser), 1))
  {
    hide Effect, Int;
    ParamOk(t.parser, 0);
    ParamOk(Closed(t.parser), 0);
    ParamOk(Closed(t.parser), 1);
  }

  // Numbers beyond an `int` take the cursor of such a terminal out of the grid, past every clamp: the
  // largest `int` moves it down around the end of the range, 2 to the 32nd counts as zero, and
  // three thousand million as negative.
  lemma OverflowEscapes(g: Geometry)
    requires GeometryOk(g) && g.rows >= 2
    ensures var b, h, a := Fed(g, Started(g), "2147483647"), Fed(g, Started(g), "4294967296"), Fed(g, Started(g), "3000000000");
            && b.Some? && TtyOk(g, b.value) && Safe(b.value.parser, 'B') && Put(g, b.value, 'B').cursor == Pos(0, INT_MIN)
            && h.Some? && TtyOk(g, h.value) && Safe(h.value.parser, 'H') && Put(g, h.value, 'H').cursor == Pos(0, -1)
            && a.Some? && TtyOk(g, a.value) && Safe(a.value.parser, 'A') && Put(g, a.value, 'A').cursor == Pos(0, 1294967297)
  {
    hide Put, Fed, Decimal, TtyOk, Param, Closed;
    TenDigits("2147483647");
    TenDigits("4294967296");
    TenDigits("3000000000");
    ReadsNumber(g, "2147483647", 'B');
    ReadsNumber(g, "4294967296", 'H');
    ReadsNumber(g, "3000000000", 'A');
  }
}

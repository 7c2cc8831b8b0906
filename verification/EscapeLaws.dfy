// What whole control sequences do to a terminal: the bytes ESC [, parameters separated by semicolons,
// and a final byte, in terms of cells, cursor and colours.

module EscapeLaws {
  import opened Options
  import opened TermModel
  import opened TermLaws

  // The bytes of a control sequence before its final byte.
  function Sequence(ps: seq<seq<char>>): seq<char> {
    ['\U{1B}', '['] + Joined(ps, ';')
  }

  // Parameters that fit the table, each a number or left out.
  ghost predicate Numbers(ps: seq<seq<char>>) {
    0 < |ps| <= 256 && forall i :: 0 <= i < |ps| ==> AllDigits(ps[i])
  }

  // What a parameter stands for.
  function Value(ps: seq<seq<char>>, i: nat): int {
    if i < |ps| && ps[i] != [] then Int(Decimal(ps[i])) else 1
  }

  // The bytes end a control sequence, and leave `u` but for what the parser remembers.
  ghost predicate Gives(g: Geometry, t: Tty, s: seq<char>, u: Tty) {
    && Fed(g, t, s).Some? && Fed(g, t, s).value.(parser := t.parser) == u
    && Ready(g, Fed(g, t, s).value)
  }

  // An escape byte with anything but a bracket behind it is dropped with it.
  lemma Dropped(g: Geometry, t: Tty, c: char)
    requires Ready(g, t) && c != '['
    ensures Gives(g, t, ['\U{1B}', c], t)
  {
    hide Csi, Advanced, Plotted, Scrolled;
    FedOne(g, t, '\U{1B}');
    FedSnoc(g, t, ['\U{1B}'], c);
    assert ['\U{1B}'] + [c] == ['\U{1B}', c];
  }

  // ---------- parameters ----------

  // The parser while the last of `ps` is being read.
  ghost predicate Reads(p: Parser, ps: seq<seq<char>>) {
    var n := |ps| - 1;
    && p.escape && p.control && |p.values| == 256 && 0 <= n < 256 && p.count == n && (p.digits <==> ps[n] != [])
    && (forall i :: 0 <= i < n ==> p.values[i] == Value(ps, i))
    && p.values[n] == (if ps[n] == [] then 0 else Int(Decimal(ps[n])))
    && (forall i :: n < i < 256 ==> p.values[i] == 0)
  }

  lemma Begin(g: Geometry, t: Tty)
    requires Ready(g, t)
    ensures Fed(g, t, ['\U{1B}', '[']) == Some(t.(parser := Parser(true, true, seq(256, _ => 0), 0, false)))
  {
    hide Csi, Advanced, Plotted, Scrolled;
    FedOne(g, t, '\U{1B}');
    FedSnoc(g, t, ['\U{1B}'], '[');
    assert ['\U{1B}'] + ['['] == ['\U{1B}', '['];
  }

  lemma FirstParameter(g: Geometry, t: Tty, p: seq<char>)
    requires Reads(t.parser, [[]]) && AllDigits(p)
    ensures Fed(g, t, p).Some?
    ensures var u := Fed(g, t, p).value;
            u == t.(parser := u.parser) && Reads(u.parser, [p])
  {
    hide Put, Int, Decimal, AllDigits;
    if p != [] {
      ParameterRead(g, t, p);
    } else {
      assert Fed(g, t, p) == Some(t);
    }
  }

  lemma Semicolon(g: Geometry, t: Tty, ps: seq<seq<char>>)
    requires Reads(t.parser, ps) && |ps| < 256
    ensures Safe(t.parser, ';')
    ensures var u := Put(g, t, ';');
            u == t.(parser := u.parser) && Reads(u.parser, ps + [[]])
  {
    hide Int, Decimal;
  }

  lemma NextParameter(g: Geometry, t: Tty, ps: seq<seq<char>>, p: seq<char>)
    requires Reads(t.parser, ps) && |ps| < 256 && AllDigits(p)
    ensures Fed(g, t, [';'] + p).Some?
    ensures var u := Fed(g, t, [';'] + p).value;
            u == t.(parser := u.parser) && Reads(u.parser, ps + [p])
  {
    hide Put, Int, Decimal, AllDigits;
    Semicolon(g, t, ps);
    FedOne(g, t, ';');
    FedConcat(g, t, [';'], p);
    var u := Put(g, t, ';');
    if p != [] {
      ParameterRead(g, u, p);
    } else {
      assert Fed(g, u, p) == Some(u);
    }
  }

  // All parameters are read, each as the number its digits write, 1 if it was left out before a semicolon.
  lemma {:induction false} ParametersRead(g: Geometry, t: Tty, ps: seq<seq<char>>)
    requires Ready(g, t) && Numbers(ps)
    ensures Fed(g, t, Sequence(ps)).Some?
    ensures var u := Fed(g, t, Sequence(ps)).value;
            u == t.(parser := u.parser) && Reads(u.parser, ps)
    decreases |ps|
  {
    hide Ready, Put, Fed, Int, Decimal, AllDigits;
    var n := |ps| - 1;
    if n == 0 {
      Begin(g, t);
      var u := Fed(g, t, ['\U{1B}', '[']).value;
      FirstParameter(g, u, ps[0]);
      FedConcat(g, t, ['\U{1B}', '['], ps[0]);
      assert [ps[0]] == ps;
    } else {
      ParametersRead(g, t, ps[..n]);
      var u := Fed(g, t, Sequence(ps[..n])).value;
      NextParameter(g, u, ps[..n], ps[n]);
      FedConcat(g, t, Sequence(ps[..n]), [';'] + ps[n]);
      assert Sequence(ps[..n]) + ([';'] + ps[n]) == Sequence(ps);
      assert ps[..n] + [ps[n]] == ps;
    }
  }

  // The parameters that the final byte sees.
  function Given(ps: seq<seq<char>>): seq<int> {
    seq(if ps != [] && ps[|ps| - 1] == [] then |ps| - 1 else |ps|, i requires 0 <= i => Value(ps, i))
  }

  lemma Complete(p: Parser, ps: seq<seq<char>>)
    requires Reads(p, ps)
    ensures var q := Defaulted(Closed(p));
            && Param(q, 0) == Value(ps, 0) && Param(q, 1) == Value(ps, 1)
            && q.count == |Given(ps)| <= |q.values| && q.values[..q.count] == Given(ps)
  {
    hide Int, Decimal;
  }

  // The final byte acts on a terminal whose parser has the parameters.
  lemma FinalByte(g: Geometry, t: Tty, ps: seq<seq<char>>, c: char) returns (p: Parser)
    requires Ready(g, t) && Numbers(ps) && !ReadsParam(c) && c != '?'
    requires !Leaves(g, t.cursor, c, Value(ps, 0), Value(ps, 1))
    ensures Param(p, 0) == Value(ps, 0) && Param(p, 1) == Value(ps, 1)
    ensures p.count == |Given(ps)| <= |p.values| && p.values[..p.count] == Given(ps)
    ensures Gives(g, t, Sequence(ps) + [c], Final(g, t.(parser := p), c).(parser := t.parser))
  {
    hide Put, Final, Leaves, Int, Decimal, Given, Fed;
    ParametersRead(g, t, ps);
    FedSnoc(g, t, Sequence(ps), c);
    var u := Fed(g, t, Sequence(ps)).value;
    p := Defaulted(Closed(u.parser));
    Complete(u.parser, ps);
    Finish(g, u, c, ps);
    assert u.(parser := p) == t.(parser := p);
  }

  lemma Finish(g: Geometry, u: Tty, c: char, ps: seq<seq<char>>)
    requires GeometryOk(g) && |u.grid| == g.rows * g.cols && InGrid(g, u.cursor) && InGrid(g, u.saved)
    requires Reads(u.parser, ps) && !ReadsParam(c) && c != '?'
    requires !Leaves(g, u.cursor, c, Value(ps, 0), Value(ps, 1))
    ensures Safe(u.parser, c)
    ensures Ready(g, Put(g, u, c))
    ensures Put(g, u, c).(parser := u.parser)
            == Final(g, u.(parser := Defaulted(Closed(u.parser))), c).(parser := u.parser)
  {
    hide Final, Leaves, Int, Decimal, Given;
    assert ParserOk(u.parser);
    assert Param(Closed(u.parser), 0) == Value(ps, 0) && Param(Closed(u.parser), 1) == Value(ps, 1);
    CsiKeepsExactly(g, u, c);
  }

  // ---------- the cursor ----------

  // The bytes put the cursor there and change nothing else.
  lemma Motion(g: Geometry, t: Tty, ps: seq<seq<char>>, c: char)
    requires Ready(g, t) && Numbers(ps) && c in {'A', 'B', 'C', 'D', 'E', 'F', 'd', 'G', '`', 'H', 'f', 'u'}
    requires !Leaves(g, t.cursor, c, Value(ps, 0), Value(ps, 1))
    ensures Gives(g, t, Sequence(ps) + [c], t.(cursor := Target(g, t, c, Value(ps, 0), Value(ps, 1))))
  {
    hide Leaves, Int, Decimal, Given, Value, Gives, Target, Param;
    var p := FinalByte(g, t, ps, c);
    SameTarget(g, t, p, c, Value(ps, 0), Value(ps, 1));
  }

  lemma SameTarget(g: Geometry, t: Tty, p: Parser, c: char, v: int, w: int)
    ensures Target(g, t.(parser := p), c, v, w) == Target(g, t, c, v, w)
  {
  }

  // One row or column at a time, stopping at the edge: the number is the first parameter, 1 if it was
  // left out.
  lemma Steps(g: Geometry, t: Tty, ps: seq<seq<char>>, v: int)
    requires Ready(g, t) && Numbers(ps)
    requires v == (if ps[0] == [] then 1 else Decimal(ps[0])) && 0 <= v <= 0x7fff_ffff
    ensures var x, y := t.cursor.x, t.cursor.y;
            && Gives(g, t, Sequence(ps) + ['A'], t.(cursor := Pos(x, if y - v < 0 then 0 else y - v)))
            && Gives(g, t, Sequence(ps) + ['D'], t.(cursor := Pos(if x - v < 0 then 0 else x - v, y)))
            && Gives(g, t, Sequence(ps) + ['F'], t.(cursor := Pos(0, if y - v < 0 then 0 else y - v)))
            && (y + v <= 0x7fff_ffff ==>
                  && Gives(g, t, Sequence(ps) + ['B'], t.(cursor := Pos(x, if y + v < g.rows then y + v else g.rows - 1)))
                  && Gives(g, t, Sequence(ps) + ['E'], t.(cursor := Pos(0, if y + v < g.rows then y + v else g.rows - 1))))
            && (x + v <= 0x7fff_ffff ==>
                  Gives(g, t, Sequence(ps) + ['C'], t.(cursor := Pos(if x + v < g.cols then x + v else g.cols - 1, y))))
  {
    hide Gives, Decimal, Sequence, Target, Leaves, Ready, Int;
    InReady(g, t);
    FirstValue(ps, v);
    StepTargets(g, t, v, Value(ps, 1));
    Motion(g, t, ps, 'A');
    Motion(g, t, ps, 'D');
    Motion(g, t, ps, 'F');
    if t.cursor.y + v <= 0x7fff_ffff {
      Motion(g, t, ps, 'B');
      Motion(g, t, ps, 'E');
    }
    if t.cursor.x + v <= 0x7fff_ffff {
      Motion(g, t, ps, 'C');
    }
  }

  lemma FirstValue(ps: seq<seq<char>>, v: int)
    requires ps != [] && v == (if ps[0] == [] then 1 else Decimal(ps[0])) && 0 <= v <= 0x7fff_ffff
    ensures Value(ps, 0) == v
  {
  }

  lemma StepTargets(g: Geometry, t: Tty, v: int, w: int)
    requires InGrid(g, t.cursor) && GeometryOk(g) && 0 <= v <= 0x7fff_ffff
    ensures var x, y := t.cursor.x, t.cursor.y;
            && Target(g, t, 'A', v, w) == Pos(x, if y - v < 0 then 0 else y - v)
            && Target(g, t, 'D', v, w) == Pos(if x - v < 0 then 0 else x - v, y)
            && Target(g, t, 'F', v, w) == Pos(0, if y - v < 0 then 0 else y - v)
            && !Leaves(g, t.cursor, 'A', v, w) && !Leaves(g, t.cursor, 'D', v, w) && !Leaves(g, t.cursor, 'F', v, w)
            && (y + v <= 0x7fff_ffff ==>
                  && Target(g, t, 'B', v, w) == Pos(x, if y + v < g.rows then y + v else g.rows - 1)
                  && Target(g, t, 'E', v, w) == Pos(0, if y + v < g.rows then y + v else g.rows - 1)
                  && !Leaves(g, t.cursor, 'B', v, w) && !Leaves(g, t.cursor, 'E', v, w))
            && (x + v <= 0x7fff_ffff ==>
                  && Target(g, t, 'C', v, w) == Pos(if x + v < g.cols then x + v else g.cols - 1, y)
                  && !Leaves(g, t.cursor, 'C', v, w))
  {
    hide Int;
  }

  // A row or column by its number, counted from 0, if there is such a one.
  lemma Lines(g: Geometry, t: Tty, ps: seq<seq<char>>, v: int)
    requires Ready(g, t) && Numbers(ps)
    requires v == (if ps[0] == [] then 1 else Decimal(ps[0])) && 0 <= v <= 0x7fff_ffff
    ensures Gives(g, t, Sequence(ps) + ['d'], t.(cursor := if v < g.rows then Pos(t.cursor.x, v) else t.cursor))
    ensures Gives(g, t, Sequence(ps) + ['G'], t.(cursor := if v < g.cols then Pos(v, t.cursor.y) else t.cursor))
    ensures Gives(g, t, Sequence(ps) + ['`'], t.(cursor := if v < g.cols then Pos(v, t.cursor.y) else t.cursor))
  {
    hide Gives, Decimal, Sequence;
    InReady(g, t);
    FirstValue(ps, v);
    Motion(g, t, ps, 'd');
    Motion(g, t, ps, 'G');
    Motion(g, t, ps, '`');
  }

  // Row and column, counted from 1, or the last ones.
  lemma Home(g: Geometry, t: Tty, ps: seq<seq<char>>, row: int, col: int)
    requires Ready(g, t) && Numbers(ps)
    requires row == (if ps[0] == [] then 1 else Decimal(ps[0])) && 1 <= row <= 0x7fff_ffff
    requires col == (if |ps| == 1 || ps[1] == [] then 1 else Decimal(ps[1])) && 1 <= col <= 0x7fff_ffff
    ensures var p := Pos((if col < g.cols then col else g.cols) - 1, (if row < g.rows then row else g.rows) - 1);
            Gives(g, t, Sequence(ps) + ['H'], t.(cursor := p)) && Gives(g, t, Sequence(ps) + ['f'], t.(cursor := p))
  {
    hide Gives, Decimal, Sequence;
    InReady(g, t);
    Motion(g, t, ps, 'H');
    Motion(g, t, ps, 'f');
  }

  // The cursor saved is the one restored, whatever text came between.
  lemma SaveRestore(g: Geometry, t: Tty, u: Tty, ps: seq<seq<char>>)
    requires Ready(g, t) && Numbers(ps)
    ensures Gives(g, t, Sequence(ps) + ['s'], t.(saved := t.cursor))
    ensures Ready(g, u) && u.saved == t.cursor ==> Gives(g, u, Sequence(ps) + ['u'], u.(cursor := t.cursor))
  {
    hide Gives, Numbers, Decimal, Sequence, Value;
    var p := FinalByte(g, t, ps, 's');
    if Ready(g, u) && u.saved == t.cursor {
      Motion(g, u, ps, 'u');
    }
  }

  // ---------- erasing ----------

  // ESC [ 1 J blanks what is before the cursor, ESC [ 2 J everything, and takes the cursor home; with any
  // other number nothing happens.
  lemma Erase(g: Geometry, t: Tty, ps: seq<seq<char>>, v: int)
    requires Ready(g, t) && Numbers(ps)
    requires v == (if ps[0] == [] then 1 else Decimal(ps[0])) && 0 <= v <= 0x7fff_ffff
    ensures Fed(g, t, Sequence(ps) + ['J']).Some?
    ensures var u := Fed(g, t, Sequence(ps) + ['J']).value;
            && Gives(g, t, Sequence(ps) + ['J'], t.(grid := u.grid, cursor := if v == 2 then Pos(0, 0) else t.cursor))
            && |u.grid| == |t.grid|
            && forall k :: 0 <= k < |u.grid| ==>
                 u.grid[k] == if v == 2 || (v == 1 && k < t.cursor.y * g.cols + t.cursor.x)
                              then Cell(' ', t.text.fg, t.text.bg) else t.grid[k]
  {
    hide Decimal, Sequence, Fed, Given;
    CursorCell(g, t);
    var p := FinalByte(g, t, ps, 'J');
    var s := t.(parser := p);
    var f := Final(g, s, 'J');
    ErasedCells(g, s);
    assert f.grid == if v == 1 then Erased(s, Index(g, t.cursor)).grid else if v == 2 then Erased(s, |t.grid|).grid else t.grid;
    assert f.(parser := t.parser) == t.(grid := f.grid, cursor := if v == 2 then Pos(0, 0) else t.cursor);
  }

  lemma ErasedCells(g: Geometry, t: Tty)
    ensures forall n :: 0 <= n <= |t.grid| ==>
              && Erased(t, n) == t.(grid := Erased(t, n).grid) && |Erased(t, n).grid| == |t.grid|
              && forall k :: 0 <= k < |t.grid| ==>
                   Erased(t, n).grid[k] == if k < n then Cell(' ', t.text.fg, t.text.bg) else t.grid[k]
  {
  }

  // ---------- colours and modes ----------

  // The colours after one parameter: 0 resets both, 30 to 37 set the text, 40 to 47 the background.
  function Coloured(text: Colours, defaults: Colours, v: int): Colours {
    var palette: seq<bv32> :=
      [0x00073642, 0x00dc322f, 0x00859900, 0x00b58900, 0x00268bd2, 0x00d33682, 0x002aa198, 0x00eee8d5];
    if v == 0 then defaults
    else if 30 <= v <= 37 then Colours(palette[v - 30], text.bg)
    else if 40 <= v <= 47 then Colours(text.fg, palette[v - 40])
    else text
  }

  lemma {:induction false} SgrSnoc(text: Colours, defaults: Colours, vs: seq<int>, v: int)
    ensures Sgr(text, defaults, vs + [v]) == Coloured(Sgr(text, defaults, vs), defaults, v)
    decreases |vs|
  {
    if vs == [] {
      assert ([] + [v])[1..] == [];
    } else {
      assert (vs + [v])[1..] == vs[1..] + [v];
      var next := Coloured(text, defaults, vs[0]);
      SgrSnoc(next, defaults, vs[1..], v);
    }
  }

  lemma Graphics(g: Geometry, t: Tty, ps: seq<seq<char>>)
    requires Ready(g, t) && Numbers(ps)
    ensures Gives(g, t, Sequence(ps) + ['m'],
                  t.(text := if Given(ps) == [] then t.defaults else Sgr(t.text, t.defaults, Given(ps))))
  {
    hide Gives, Numbers, Decimal, Sequence, Value, Given;
    var p := FinalByte(g, t, ps, 'm');
  }

  // Without parameters the colours are the default ones, with one they are what it says.
  lemma GraphicsParameter(g: Geometry, t: Tty, p: seq<char>)
    requires Ready(g, t) && AllDigits(p) && p != []
    ensures Gives(g, t, ['\U{1B}', '[', 'm'], t.(text := t.defaults))
    ensures Gives(g, t, ['\U{1B}', '['] + p + ['m'], t.(text := Coloured(t.text, t.defaults, Int(Decimal(p)))))
  {
    hide Gives, Decimal, Int, Sgr, Coloured, Ready;
    Graphics(g, t, [[]]);
    assert Sequence([[]]) + ['m'] == ['\U{1B}', '[', 'm'] && Given([[]]) == [];
    Graphics(g, t, [p]);
    SgrSnoc(t.text, t.defaults, [], Int(Decimal(p)));
    SgrNone(t.text, t.defaults);
    assert Given([p]) == [Int(Decimal(p))] == [] + [Int(Decimal(p))];
  }

  // By name: red text, green background, and back to the default colours.
  lemma NamedColours(g: Geometry, t: Tty)
    requires Ready(g, t)
    ensures Gives(g, t, ['\U{1B}', '[', '3', '1', 'm'], t.(text := Colours(0x00dc322f, t.text.bg)))
    ensures Gives(g, t, ['\U{1B}', '[', '4', '2', 'm'], t.(text := Colours(t.text.fg, 0x00859900)))
    ensures Gives(g, t, ['\U{1B}', '[', '0', 'm'], t.(text := t.defaults))
  {
    hide Gives, Ready;
    GraphicsParameter(g, t, ['3', '1']);
    GraphicsParameter(g, t, ['4', '2']);
    GraphicsParameter(g, t, ['0']);
    TwoDigits('3', '1');
    TwoDigits('4', '2');
    assert ['\U{1B}', '['] + ['3', '1'] + ['m'] == ['\U{1B}', '[', '3', '1', 'm'];
    assert ['\U{1B}', '['] + ['4', '2'] + ['m'] == ['\U{1B}', '[', '4', '2', 'm'];
    assert ['\U{1B}', '['] + ['0'] + ['m'] == ['\U{1B}', '[', '0', 'm'];
  }

  lemma TwoDigits(a: char, b: char)
    ensures Decimal([a, b]) == (a as int - 48) * 10 + (b as int - 48) && Decimal([a]) == a as int - 48
  {
    DecimalNone([a]);
    DecimalAt([a], 0);
    DecimalAt([a, b], 1);
    assert [a, b][..1] == [a] && [a][..1] == [a] && [a, b][..2] == [a, b];
  }

  // One more parameter changes the colours that those before it leave.
  lemma GraphicsParameters(g: Geometry, t: Tty, ps: seq<seq<char>>, p: seq<char>) returns (text: Colours)
    requires Ready(g, t) && Numbers(ps) && |ps| < 256 && ps[|ps| - 1] != [] && AllDigits(p) && p != []
    ensures Gives(g, t, Sequence(ps) + ['m'], t.(text := text))
    ensures Gives(g, t, Sequence(ps) + [';'] + p + ['m'], t.(text := Coloured(text, t.defaults, Int(Decimal(p)))))
  {
    hide Gives, Decimal, Int, Sgr, Coloured, Ready, AllDigits, Joined;
    text := Sgr(t.text, t.defaults, Given(ps));
    Graphics(g, t, ps);
    Graphics(g, t, ps + [p]);
    SgrSnoc(t.text, t.defaults, Given(ps), Int(Decimal(p)));
    assert Given(ps + [p]) == Given(ps) + [Int(Decimal(p))];
    JoinedSnoc(ps, p);
    assert Sequence(ps + [p]) == Sequence(ps) + [';'] + p;
  }

  lemma SgrNone(text: Colours, defaults: Colours)
    ensures Sgr(text, defaults, []) == text
  {
  }

  lemma JoinedSnoc(ps: seq<seq<char>>, p: seq<char>)
    requires ps != []
    ensures Joined(ps + [p], ';') == Joined(ps, ';') + [';'] + p
  {
    assert (ps + [p])[..|ps|] == ps;
  }

  // The scrolling region is noted and not used; an unknown final byte only ends the sequence.
  lemma Region(g: Geometry, t: Tty, ps: seq<seq<char>>, v: int, w: int)
    requires Ready(g, t) && Numbers(ps)
    requires v == (if ps[0] == [] then 1 else Decimal(ps[0])) && 0 <= v <= 0x7fff_ffff
    requires w == (if |ps| == 1 || ps[1] == [] then 1 else Decimal(ps[1])) && 0 <= w <= 0x7fff_ffff
    ensures Gives(g, t, Sequence(ps) + ['r'], t.(region := Pos(v, w)))
  {
    hide Gives, Decimal, Sequence, Given;
    var p := FinalByte(g, t, ps, 'r');
  }

  lemma Unknown(g: Geometry, t: Tty, ps: seq<seq<char>>, c: char)
    requires Ready(g, t) && Numbers(ps) && !('0' <= c <= '9') && c != ';' && c != '?'
    requires c !in {'A', 'B', 'C', 'D', 'E', 'F', 'd', 'G', '`', 'H', 'f', 'u', 'J', 'm', 'r', 's', 'h', 'l'}
    ensures Gives(g, t, Sequence(ps) + [c], t)
  {
    hide Gives, Decimal, Sequence, Given, Numbers, Value;
    var p := FinalByte(g, t, ps, c);
  }

  // Without a question mark the modes stay.
  lemma PlainMode(g: Geometry, t: Tty, ps: seq<seq<char>>, c: char)
    requires Ready(g, t) && Numbers(ps) && !t.decPrivate && c in {'h', 'l'}
    ensures Gives(g, t, Sequence(ps) + [c], t)
  {
    hide Gives, Decimal, Sequence, Given, Numbers, Value;
    var p := FinalByte(g, t, ps, c);
  }

  // ---------- private modes ----------

  // A parser behind the question mark: the first number may be anything, the second is left out.
  ghost predicate Asked(p: Parser) {
    ParserOk(p) && p.escape && p.control && p.count == 0 && p.values[1] == 1
  }

  lemma {:induction false} AskedDigits(g: Geometry, t: Tty, s: seq<char>)
    requires Asked(t.parser) && AllDigits(s)
    ensures Fed(g, t, s).Some?
    ensures var u := Fed(g, t, s).value;
            u == t.(parser := u.parser) && Asked(u.parser)
    decreases |s|
  {
    hide Put, Int;
    if s != [] {
      var n := |s| - 1;
      AskedDigits(g, t, s[..n]);
      DigitRead(g, Fed(g, t, s[..n]).value, s[n]);
    }
  }

  // ESC [ ? h switches the cursor keys to application mode and ESC [ ? l back, whatever number stands
  // between.
  lemma PrivateMode(g: Geometry, t: Tty, s: seq<char>)
    requires Ready(g, t) && AllDigits(s)
    ensures Gives(g, t, ['\U{1B}', '[', '?'] + s + ['h'], t.(decPrivate := false, decckm := true))
    ensures Gives(g, t, ['\U{1B}', '[', '?'] + s + ['l'], t.(decPrivate := false, decckm := false))
  {
    hide Put, Int, Fed, Gives;
    Begin(g, t);
    Question(g, t);
    var q := Fed(g, t, ['\U{1B}', '[', '?']).value;
    AskedDigits(g, q, s);
    FedConcat(g, t, ['\U{1B}', '[', '?'], s);
    var u := Fed(g, t, ['\U{1B}', '[', '?'] + s).value;
    EndMode(g, u, 'h');
    EndMode(g, u, 'l');
    FedSnoc(g, t, ['\U{1B}', '[', '?'] + s, 'h');
    FedSnoc(g, t, ['\U{1B}', '[', '?'] + s, 'l');
    GivesIs(g, t, ['\U{1B}', '[', '?'] + s + ['h'], t.(decPrivate := false, decckm := true));
    GivesIs(g, t, ['\U{1B}', '[', '?'] + s + ['l'], t.(decPrivate := false, decckm := false));
  }

  lemma GivesIs(g: Geometry, t: Tty, s: seq<char>, u: Tty)
    requires Fed(g, t, s).Some? && Fed(g, t, s).value.(parser := t.parser) == u && Ready(g, Fed(g, t, s).value)
    ensures Gives(g, t, s, u)
  {
  }

  lemma Question(g: Geometry, t: Tty)
    requires Ready(g, t)
    ensures Fed(g, t, ['\U{1B}', '[', '?']).Some?
    ensures var u := Fed(g, t, ['\U{1B}', '[', '?']).value;
            u == t.(decPrivate := true, parser := u.parser) && Asked(u.parser)
  {
    hide Final, Fed;
    Begin(g, t);
    FedSnoc(g, t, ['\U{1B}', '['], '?');
    assert ['\U{1B}', '['] + ['?'] == ['\U{1B}', '[', '?'];
  }

  lemma EndMode(g: Geometry, u: Tty, c: char)
    requires GeometryOk(g) && TtyOk(g, u) && Asked(u.parser) && u.decPrivate && c in {'h', 'l'}
    ensures Safe(u.parser, c) && Ready(g, Put(g, u, c))
    ensures Put(g, u, c) == u.(decPrivate := false, decckm := c == 'h', parser := Put(g, u, c).parser)
  {
    hide Int;
    PutKeepsExactly(g, u, c);
  }
}

// The terminals and the screen: every terminal has a grid, one of them is on the screen, and the
// code redraws only the cells that change.

module Terminal {
  import opened Options
  import opened TermModel

  // What cell `i` of a full redraw of a terminal shows.
  function Shown(g: Geometry, t: Tty, i: int): Cell
    requires 0 <= i < |t.grid|
  {
    if t.cursorOn && i == Index(g, t.cursor) then Cell(t.grid[i].c, t.cursorColours.fg, t.cursorColours.bg)
    else t.grid[i]
  }

  // A full redraw of a terminal: its grid plus its cursor.
  function Redraw(g: Geometry, t: Tty): (screen: seq<Cell>)
    ensures |screen| == |t.grid| && forall i :: 0 <= i < |screen| ==> screen[i] == Shown(g, t, i)
  {
    seq(|t.grid|, i requires 0 <= i < |t.grid| => Shown(g, t, i))
  }

  // The screen shows the grid everywhere except, perhaps, at the cursor.
  ghost predicate Near(g: Geometry, screen: seq<Cell>, t: Tty) {
    && |screen| == |t.grid|
    && forall i :: 0 <= i < |screen| && !(t.cursorOn && i == Index(g, t.cursor)) ==> screen[i] == t.grid[i]
  }

  lemma RedrawIsNear(g: Geometry, t: Tty)
    ensures Near(g, Redraw(g, t), t)
  {
  }

  // A grid cell drawn and stored.
  lemma PlotBoth(g: Geometry, t: Tty, p: Pos, cell: Cell)
    requires TtyOk(g, t) && InGrid(g, p)
    ensures 0 <= Index(g, p) < |t.grid| && TtyOk(g, Plotted(g, t, p, cell))
    ensures Plotted(g, t, p, cell).grid == t.grid[Index(g, p) := cell]
  {
    IndexInGrid(g, p);
  }

  datatype Event = Byte(tty: nat, c: char) | Switch(tty: nat)

  // Input the code can take: a terminal that exists, no parameter beyond the table, and no control
  // sequence that takes the cursor out of the grid.
  predicate Acceptable(g: Geometry, ttys: seq<Tty>, e: Event) {
    e.tty < |ttys| && (e.Byte? ==> Safe(ttys[e.tty].parser, e.c) && !LeavesGrid(g, ttys[e.tty], e.c))
  }

  function Apply(g: Geometry, ttys: seq<Tty>, e: Event): seq<Tty>
    requires Acceptable(g, ttys, e)
  {
    if e.Byte? then ttys[e.tty := Put(g, ttys[e.tty], e.c)] else ttys
  }

  ghost predicate AllOk(g: Geometry, ttys: seq<Tty>) {
    forall k :: 0 <= k < |ttys| ==> TtyOk(g, ttys[k])
  }

  lemma ApplyKeeps(g: Geometry, ttys: seq<Tty>, e: Event)
    requires GeometryOk(g) && AllOk(g, ttys) && Acceptable(g, ttys, e)
    ensures AllOk(g, Apply(g, ttys, e)) && |Apply(g, ttys, e)| == |ttys|
  {
    hide TtyOk, Put;
    if e.Byte? {
      PutKeepsExactly(g, ttys[e.tty], e.c);
    }
  }

  // The terminals after a run of events.
  function After(g: Geometry, ttys: seq<Tty>, es: seq<Event>): Option<seq<Tty>>
    decreases |es|
  {
    if es == [] then Some(ttys)
    else if !Acceptable(g, ttys, es[0]) then None
    else After(g, Apply(g, ttys, es[0]), es[1..])
  }

  // Over any run of acceptable events, every cursor stays inside its grid.
  lemma {:induction false} CursorsStayInside(g: Geometry, ttys: seq<Tty>, es: seq<Event>)
    requires GeometryOk(g) && AllOk(g, ttys) && After(g, ttys, es).Some?
    ensures AllOk(g, After(g, ttys, es).value) && |After(g, ttys, es).value| == |ttys|
    decreases |es|
  {
    if es != [] {
      ApplyKeeps(g, ttys, es[0]);
      CursorsStayInside(g, Apply(g, ttys, es[0]), es[1..]);
    }
  }

  lemma {:induction false} AfterSnoc(g: Geometry, ttys: seq<Tty>, es: seq<Event>, e: Event)
    requires After(g, ttys, es).Some?
    ensures After(g, ttys, es + [e])
            == if Acceptable(g, After(g, ttys, es).value, e) then Some(Apply(g, After(g, ttys, es).value, e)) else None
    decreases |es|
  {
    if es == [] {
      assert ([] + [e])[1..] == [];
    } else {
      AfterSnoc(g, Apply(g, ttys, es[0]), es[1..], e);
      assert (es + [e])[1..] == es[1..] + [e];
    }
  }

  // The terminal on the screen after a run of events.
  function CurrentAfter(current: nat, es: seq<Event>): nat {
    if es == [] then current
    else if es[|es| - 1].Switch? then es[|es| - 1].tty
    else CurrentAfter(current, es[..|es| - 1])
  }

  class Terminals {
    const g: Geometry
    const screen: array<Cell>
    var ttys: seq<Tty>
    var current: nat

    ghost predicate Base()
      reads this
    {
      && GeometryOk(g) && screen.Length == g.rows * g.cols
      && current < |ttys| && AllOk(g, ttys)
    }

    // Between two operations: the screen is a full redraw of the current terminal.
    ghost predicate Valid()
      reads this, screen
    {
      Base() && screen[..] == Redraw(g, ttys[current])
    }

    // Inside an operation on terminal `k`: if it is on the screen, its cursor may or may not be drawn.
    ghost predicate Open(k: nat)
      reads this, screen
    {
      && Base() && k < |ttys|
      && if k == current then Near(g, screen[..], ttys[k]) else screen[..] == Redraw(g, ttys[current])
    }

    // Inside an operation on terminal `k`: if it is on the screen, the screen shows its grid only.
    ghost predicate Bare(k: nat)
      reads this, screen
    {
      && Base() && k < |ttys|
      && if k == current then screen[..] == ttys[k].grid else screen[..] == Redraw(g, ttys[current])
    }

    // Only terminal `k` changed, to `t`.
    twostate predicate Became(k: nat, t: Tty)
      reads this
    {
      k < |old(ttys)| && ttys == old(ttys)[k := t]
    }

    // All terminals blank, the first one on the screen.
    constructor (geometry: Geometry)
      requires GeometryOk(geometry)
      ensures Valid() && g == geometry && current == 0 && fresh(screen)
      ensures ttys == seq(MAX_TTYS, _ => NewTty(geometry))
    {
      g := geometry;
      screen := new Cell[geometry.rows * geometry.cols](_ => Cell(NUL, 0, 0));
      ttys := seq(MAX_TTYS, _ => NewTty(geometry));
      current := 0;
      new;
      Refresh();
    }

    method PlotCharGrid(k: nat, cell: Cell, p: Pos)
      requires Bare(k) && InGrid(g, p)
      modifies this`ttys, screen
      ensures Bare(k) && Became(k, Plotted(g, old(ttys)[k], p, cell))
    {
      hide TtyOk;
      var t := ttys[k];
      PlotBoth(g, t, p, cell);
      IndexInGrid(g, p);
      if t.grid[Index(g, p)] != cell {
        if k == current {
          screen[Index(g, p)] := cell;
        }
        ttys := ttys[k := t.(grid := t.grid[Index(g, p) := cell])];
      } else {
        assert t.grid[Index(g, p) := cell] == t.grid;
        assert ttys[k := t] == ttys;
      }
    }

    method ClearCursor(k: nat)
      requires Open(k)
      modifies screen
      ensures Bare(k)
    {
      var t := ttys[k];
      IndexInGrid(g, t.cursor);
      if t.cursorOn && k == current {
        screen[Index(g, t.cursor)] := t.grid[Index(g, t.cursor)];
      }
      assert k == current ==> screen[..] == t.grid;
    }

    method DrawCursor(k: nat)
      requires Open(k)
      modifies screen
      ensures Valid()
    {
      var t := ttys[k];
      IndexInGrid(g, t.cursor);
      if t.cursorOn && k == current {
        var i := Index(g, t.cursor);
        screen[i] := Cell(t.grid[i].c, t.cursorColours.fg, t.cursorColours.bg);
      }
      assert k == current ==> screen[..] == Redraw(g, t);
    }

    // Draw the whole of the current terminal.
    method Refresh()
      requires Base()
      modifies screen
      ensures Valid()
    {
      var t := ttys[current];
      assert TtyOk(g, t);
      var i := 0;
      while i < screen.Length
        invariant i <= screen.Length
        invariant forall j :: 0 <= j < i ==> screen[j] == t.grid[j]
      {
        screen[i] := t.grid[i];
        i := i + 1;
      }
      DrawCursor(current);
    }

    // From the bare grid, with the cursor put anywhere in it.
    method PlaceCursor(k: nat, p: Pos)
      requires Bare(k) && InGrid(g, p)
      modifies this`ttys, screen
      ensures Valid() && Became(k, old(ttys)[k].(cursor := p))
    {
      ttys := ttys[k := ttys[k].(cursor := p)];
      DrawCursor(k);
    }

    method SetCursorPos(k: nat, p: Pos)
      requires Open(k) && InGrid(g, p)
      modifies this`ttys, screen
      ensures Valid() && Became(k, old(ttys)[k].(cursor := p))
    {
      ClearCursor(k);
      PlaceCursor(k, p);
    }

    // Blank the cells from `lo` up to `hi`.
    method BlankCells(k: nat, lo: nat, hi: nat)
      requires Bare(k) && lo <= hi <= screen.Length
      modifies this`ttys, screen
      ensures Bare(k) && |old(ttys)[k].grid| == screen.Length
      ensures var t := old(ttys)[k];
              Became(k, t.(grid := t.grid[..lo] + seq(hi - lo, _ => Blank(t)) + t.grid[hi..]))
    {
      hide TtyOk;
      ghost var t := ttys[k];
      GridLength(g, t);
      var i := lo;
      assert t.grid == t.grid[..lo] + seq(0, _ => Blank(t)) + t.grid[lo..];
      while i < hi
        invariant lo <= i <= hi && Bare(k)
        invariant Became(k, t.(grid := t.grid[..lo] + seq(i - lo, _ => Blank(t)) + t.grid[i..]))
      {
        PosOfIndex(g, i);
        BlankStep(t.grid, lo, i, Blank(t));
        PlotCharGrid(k, Blank(ttys[k]), PosOf(g, i));
        i := i + 1;
      }
    }

    // Move every row up by one.
    method ShiftRows(k: nat)
      requires Bare(k)
      modifies this`ttys, screen
      ensures Bare(k) && g.cols <= |old(ttys)[k].grid| == screen.Length
      ensures var t := old(ttys)[k];
              Became(k, t.(grid := t.grid[g.cols..] + t.grid[|t.grid| - g.cols..]))
    {
      hide TtyOk, Shifted;
      ghost var t := ttys[k];
      GridLength(g, t);
      var i := g.cols;
      ShiftEnds(t.grid, g.cols);
      while i < screen.Length
        invariant g.cols <= i <= screen.Length && Bare(k)
        invariant Became(k, t.(grid := Shifted(t.grid, g.cols, i)))
      {
        PosOfIndex(g, i - g.cols);
        ShiftStep(t.grid, g.cols, i);
        PlotCharGrid(k, ttys[k].grid[i], PosOf(g, i - g.cols));
        i := i + 1;
      }
    }

    method Scroll(k: nat)
      requires Open(k)
      modifies this`ttys, screen
      ensures Valid() && Became(k, Scrolled(g, old(ttys)[k]))
    {
      hide TtyOk;
      ghost var t := ttys[k];
      ClearCursor(k);
      ShiftRows(k);
      BlankCells(k, screen.Length - g.cols, screen.Length);
      assert ttys[k].grid == Scrolled(g, t).grid;
      BareIsOpen(k);
      DrawCursor(k);
    }

    // Blank the whole terminal and put the cursor at its first cell.
    method Clear(k: nat)
      requires Open(k)
      modifies this`ttys, screen
      ensures Valid() && Became(k, Erased(old(ttys)[k], |old(ttys)[k].grid|).(cursor := Pos(0, 0)))
    {
      hide TtyOk;
      ghost var t := ttys[k];
      GridLength(g, t);
      ClearCursor(k);
      BlankCells(k, 0, screen.Length);
      assert ttys[k].grid == Erased(t, |t.grid|).grid;
      PlaceCursor(k, Pos(0, 0));
    }

    // Blank everything before the cursor.
    method EraseToCursor(k: nat)
      requires Open(k)
      modifies this`ttys, screen
      ensures Valid() && Became(k, Erased(old(ttys)[k], Index(g, old(ttys)[k].cursor)))
    {
      ghost var t := ttys[k];
      var n := Index(g, ttys[k].cursor);
      IndexInGrid(g, t.cursor);
      ClearCursor(k);
      BlankCells(k, 0, n);
      assert ttys[k].grid == Erased(t, n).grid;
      BareIsOpen(k);
      DrawCursor(k);
    }

    method SelectGraphics(t: Tty) returns (text: Colours)
      requires t.parser.count <= |t.parser.values|
      ensures text == if t.parser.count == 0 then t.defaults else Sgr(t.text, t.defaults, t.parser.values[..t.parser.count])
    {
      text := t.text;
      if t.parser.count == 0 {
        return t.defaults;
      }
      ghost var vs := t.parser.values[..t.parser.count];
      var i := 0;
      while i < t.parser.count
        invariant i <= t.parser.count
        invariant Sgr(text, t.defaults, vs[i..]) == Sgr(t.text, t.defaults, vs)
      {
        var v := t.parser.values[i];
        assert vs[i..][0] == v && vs[i..][1..] == vs[i + 1..];
        if v == 0 {
          text := t.defaults;
        } else if 30 <= v <= 37 {
          text := text.(fg := ANSI_COLOURS[v - 30]);
        } else if 40 <= v <= 47 {
          text := text.(bg := ANSI_COLOURS[v - 40]);
        }
        i := i + 1;
      }
      assert vs[i..] == [];
    }

    // The final bytes that change neither grid nor cursor.
    method FinishHidden(k: nat, c: char)
      requires Valid() && k < |ttys| && c in {'m', 'r', 's', 'h', 'l'}
      modifies this`ttys
      ensures Valid() && Became(k, Final(g, old(ttys)[k], c))
    {
      hide Redraw, TtyOk, ParserOk, InGrid, Sgr;
      HiddenKeeps(g, ttys[k], c);
      var t := ttys[k];
      var v, w := Param(t.parser, 0), Param(t.parser, 1);
      if c == 'm' {
        var text := SelectGraphics(t);
        t := t.(text := text);
      } else if c == 'r' {
        t := t.(region := Pos(v, w));
      } else if c == 's' {
        t := t.(saved := t.cursor);
      } else if t.decPrivate {
        t := t.(decPrivate := false, decckm := if w == 1 then c == 'h' else t.decckm);
      }
      assert t == Final(g, ttys[k], c);
      UpdateHidden(k, t);
    }

    // The final byte of a control sequence.
    method FinishSequence(k: nat, c: char)
      requires Valid() && k < |ttys|
      requires !Leaves(g, ttys[k].cursor, c, Param(ttys[k].parser, 0), Param(ttys[k].parser, 1))
      modifies this`ttys, screen
      ensures Valid() && Became(k, Final(g, old(ttys)[k], c))
    {
      hide Redraw, Erased, Near, Final, Target, Effect, Param;
      var t := ttys[k];
      var v, w := Param(t.parser, 0), Param(t.parser, 1);
      ValidIsOpen(k);
      EraseOnly(g, t);
      if c in {'m', 'r', 's', 'h', 'l'} {
        FinishHidden(k, c);
      } else if c == 'J' && v == 1 {
        EraseToCursor(k);
      } else if c == 'J' && v == 2 {
        Clear(k);
      } else {
        ParamOk(t.parser, 0);
        ParamOk(t.parser, 1);
        TargetExactly(g, t, c, v, w);
        MotionOnly(g, t, c);
        SetCursorPos(k, Target(g, t, c, v, w));
      }
    }

    // A change of what is neither grid nor cursor.
    method UpdateHidden(k: nat, t: Tty)
      requires Valid() && k < |ttys| && TtyOk(g, t)
      requires t.grid == ttys[k].grid && t.cursor == ttys[k].cursor && t.cursorOn == ttys[k].cursorOn
      requires t.cursorColours == ttys[k].cursorColours
      modifies this`ttys
      ensures Valid() && Became(k, t)
    {
      assert Redraw(g, t) == Redraw(g, ttys[k]);
      ttys := ttys[k := t];
    }

    // One byte inside a control sequence.
    method ControlSequenceParse(k: nat, c: char)
      requires Valid() && Acceptable(g, ttys, Byte(k, c)) && ttys[k].parser.escape && ttys[k].parser.control
      modifies this`ttys, screen
      ensures Valid() && Became(k, Csi(g, old(ttys)[k], c))
    {
      hide Redraw, Final;
      var t := ttys[k];
      ParamOk(t.parser, 0);
      if ReadsParam(c) {
        UpdateHidden(k, t.(parser := Parsed(t.parser, c)));
      } else {
        var p := Closed(t.parser);
        ParamOk(p, 0);
        t := t.(parser := Defaulted(p));
        if c == '?' {
          UpdateHidden(k, t.(decPrivate := true));
        } else {
          ParamOk(p, 1);
          UpdateHidden(k, t);
          EndSequence(k, c);
        }
      }
    }

    // The final byte, and the end of the sequence.
    method EndSequence(k: nat, c: char)
      requires Valid() && k < |ttys|
      requires !Leaves(g, ttys[k].cursor, c, Param(ttys[k].parser, 0), Param(ttys[k].parser, 1))
      modifies this`ttys, screen
      ensures Valid()
      ensures Became(k, Final(g, old(ttys)[k], c).(parser := old(ttys)[k].parser.(control := false, escape := false)))
    {
      hide Redraw, Final, Param, Csi;
      var p := ttys[k].parser;
      FinishSequence(k, c);
      UpdateHidden(k, ttys[k].(parser := p.(control := false, escape := false)));
    }

    // A printable byte.
    method PutText(k: nat, c: char)
      requires Valid() && k < |ttys|
      modifies this`ttys, screen
      ensures Valid()
      ensures var t := old(ttys)[k];
              Became(k, Advanced(g, Plotted(g, t, t.cursor, Cell(c, t.text.fg, t.text.bg))))
    {
      hide Redraw, Scrolled, Near, ParserOk, Shown;
      var t := ttys[k];
      ValidIsOpen(k);
      ClearCursor(k);
      PlotCharGrid(k, Cell(c, t.text.fg, t.text.bg), t.cursor);
      var x, y := t.cursor.x + 1, t.cursor.y;
      if x == g.cols {
        x, y := 0, y + 1;
      }
      if y == g.rows {
        y := y - 1;
        PlaceCursor(k, Pos(x, y));
        ValidIsOpen(k);
        Scroll(k);
      } else {
        PlaceCursor(k, Pos(x, y));
      }
    }

    // A byte that only moves the cursor.
    method PutMotion(k: nat, c: char)
      requires Valid() && k < |ttys| && c in {TAB, RETURN, BACKSPACE}
      modifies this`ttys, screen
      ensures Valid() && Became(k, Printed(g, old(ttys)[k], c))
    {
      hide Redraw, Advanced, Plotted, Scrolled, Near, ParserOk;
      var t := ttys[k];
      var x, y := t.cursor.x, t.cursor.y;
      ValidIsOpen(k);
      if c == TAB {
        var stop := (x / TAB_SIZE + 1) * TAB_SIZE;
        SetCursorPos(k, if stop >= g.cols then t.cursor else Pos(stop, y));
      } else if c == RETURN {
        SetCursorPos(k, Pos(0, y));
      } else if x != 0 || y != 0 {
        SetCursorPos(k, if x != 0 then Pos(x - 1, y) else Pos(g.cols - 1, y - 1));
      } else {
        UpdateHidden(k, t);
      }
    }

    method PutNewline(k: nat)
      requires Valid() && k < |ttys|
      modifies this`ttys, screen
      ensures Valid() && Became(k, Printed(g, old(ttys)[k], NEWLINE))
    {
      hide Redraw, Advanced, Plotted, Scrolled, Near, ParserOk;
      var y := ttys[k].cursor.y;
      ValidIsOpen(k);
      if y == g.rows - 1 {
        SetCursorPos(k, Pos(0, y));
        ValidIsOpen(k);
        Scroll(k);
      } else {
        SetCursorPos(k, Pos(0, y + 1));
      }
    }

    method PutChar(k: nat, c: char)
      requires Valid() && Acceptable(g, ttys, Byte(k, c))
      modifies this`ttys, screen
      ensures Valid() && Became(k, Put(g, old(ttys)[k], c))
    {
      hide Redraw, Csi, Advanced, Plotted, Scrolled, Near, ParserOk;
      var t := ttys[k];
      EscapeParserOk(t.parser);
      FreshParserOk(t.parser);
      if t.parser.escape {
        if t.parser.control {
          ControlSequenceParse(k, c);
        } else if c == '[' {
          UpdateHidden(k, t.(parser := Parser(true, true, seq(MAX_ESC_VALUES, _ => 0), 0, false)));
        } else {
          UpdateHidden(k, t.(parser := t.parser.(escape := false)));
        }
      } else if c == NUL || c == BELL {
        UpdateHidden(k, t);
      } else if c == ESCAPE {
        UpdateHidden(k, t.(parser := t.parser.(escape := true)));
      } else if c == NEWLINE {
        PutNewline(k);
      } else if c in {TAB, RETURN, BACKSPACE} {
        PutMotion(k, c);
      } else {
        PutText(k, c);
      }
    }

    // Any bytes to any terminals and any switches, as far as they are acceptable: the terminals are
    // what the bytes make of them, and the screen is a full redraw of the current one.
    method Process(es: seq<Event>) returns (n: nat)
      requires Valid()
      modifies this`ttys, this`current, screen
      ensures Valid() && n <= |es|
      ensures After(g, old(ttys), es[..n]) == Some(ttys) && current == CurrentAfter(old(current), es[..n])
      ensures screen[..] == Redraw(g, ttys[current])
      ensures n < |es| ==> !Acceptable(g, ttys, es[n])
    {
      hide TtyOk, Redraw, Put;
      n := 0;
      assert es[..0] == [];
      while n < |es|
        invariant Valid() && n <= |es|
        invariant After(g, old(ttys), es[..n]) == Some(ttys) && current == CurrentAfter(old(current), es[..n])
      {
        if !Acceptable(g, ttys, es[n]) {
          return;
        }
        AfterSnoc(g, old(ttys), es[..n], es[n]);
        assert es[..n + 1] == es[..n] + [es[n]] && es[..n + 1][..n] == es[..n];
        match es[n] {
          case Byte(k, c) =>
            PutChar(k, c);
          case Switch(k) =>
            current := k;
            Refresh();
        }
        n := n + 1;
      }
    }

    lemma BareIsOpen(k: nat)
      requires Bare(k)
      ensures Open(k)
    {
    }

    lemma ValidIsOpen(k: nat)
      requires Valid() && k < |ttys|
      ensures Open(k)
    {
      RedrawIsNear(g, ttys[k]);
    }
  }

  // The grid while rows move up: the cells before `i` have moved.
  function Shifted(s: seq<Cell>, c: nat, i: nat): seq<Cell>
    requires c <= i <= |s|
  {
    s[c..i] + s[i - c..]
  }

  lemma ShiftEnds(s: seq<Cell>, c: nat)
    requires c <= |s|
    ensures Shifted(s, c, c) == s && Shifted(s, c, |s|) == s[c..] + s[|s| - c..]
  {
    assert s[c..|s|] == s[c..];
  }

  lemma ShiftStep(s: seq<Cell>, c: nat, i: nat)
    requires c <= i < |s|
    ensures |Shifted(s, c, i)| == |s| && (c > 0 ==> Shifted(s, c, i)[i] == s[i])
    ensures Shifted(s, c, i)[i - c := s[i]] == Shifted(s, c, i + 1)
  {
  }

  lemma BlankStep(s: seq<Cell>, lo: nat, i: nat, b: Cell)
    requires lo <= i < |s|
    ensures |s[..lo] + seq(i - lo, _ => b) + s[i..]| == |s|
    ensures (s[..lo] + seq(i - lo, _ => b) + s[i..])[i := b] == s[..lo] + seq(i + 1 - lo, _ => b) + s[i + 1..]
  {
  }

  lemma EraseOnly(g: Geometry, t: Tty)
    ensures Param(t.parser, 0) == 1 ==> Final(g, t, 'J') == Erased(t, Index(g, t.cursor))
    ensures Param(t.parser, 0) == 2 ==> Final(g, t, 'J') == Erased(t, |t.grid|).(cursor := Pos(0, 0))
  {
  }

  lemma HiddenKeeps(g: Geometry, t: Tty, c: char)
    requires TtyOk(g, t) && c in {'m', 'r', 's', 'h', 'l'}
    ensures TtyOk(g, Final(g, t, c)) && t.parser.count <= |t.parser.values|
  {
    hide Sgr;
  }

  lemma MotionOnly(g: Geometry, t: Tty, c: char)
    requires c !in {'m', 'r', 's', 'h', 'l'} && (c == 'J' ==> Param(t.parser, 0) != 1 && Param(t.parser, 0) != 2)
    ensures Final(g, t, c) == t.(cursor := Target(g, t, c, Param(t.parser, 0), Param(t.parser, 1)))
  {
  }

  lemma FreshParserOk(p: Parser)
    requires ParserOk(p)
    ensures ParserOk(Parser(true, true, seq(MAX_ESC_VALUES, _ => 0), 0, false))
    ensures ParserOk(p.(escape := false))
  {
  }

  lemma GridLength(g: Geometry, t: Tty)
    requires TtyOk(g, t) && GeometryOk(g)
    ensures |t.grid| == g.rows * g.cols && g.cols <= g.rows * g.cols
  {
    hide ParserOk;
    AtLeastOnce(g.rows, g.cols);
  }

  lemma AtLeastOnce(n: nat, m: nat)
    requires n > 0
    ensures m <= n * m
  {
    assert n * m == (n - 1) * m + m;
  }
}

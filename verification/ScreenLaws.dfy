// What stands on the screen after any run of bytes and switches, and which bytes a terminal sees.

module ScreenLaws {
  import opened Options
  import opened TermModel
  import opened TermLaws
  import opened Terminal

  // The screen shows each character of the terminal in its colours, and the one under the cursor in
  // those of the cursor.
  lemma ScreenCell(g: Geometry, t: Tty, x: int, y: int)
    requires GeometryOk(g) && TtyOk(g, t) && 0 <= x < g.cols && 0 <= y < g.rows
    ensures 0 <= y * g.cols + x < |t.grid| == |Redraw(g, t)|
    ensures Redraw(g, t)[y * g.cols + x]
            == if t.cursorOn && t.cursor == Pos(x, y)
               then Cell(t.grid[y * g.cols + x].c, t.cursorColours.fg, t.cursorColours.bg)
               else t.grid[y * g.cols + x]
  {
    hide ParserOk;
    CellBounds(g, x, y);
    if t.cursor.y * g.cols + t.cursor.x == y * g.cols + x {
      SameCell(g, t.cursor, Pos(x, y));
    }
  }

  lemma CellBounds(g: Geometry, x: int, y: int)
    requires 0 <= x < g.cols && 0 <= y < g.rows
    ensures 0 <= y * g.cols + x < g.rows * g.cols
  {
    IndexInGrid(g, Pos(x, y));
  }

  // The bytes of a run for terminal `k`.
  function BytesFor(k: nat, es: seq<Event>): seq<char> {
    if es == [] then []
    else (if es[0].Byte? && es[0].tty == k then [es[0].c] else []) + BytesFor(k, es[1..])
  }

  // Each terminal is what its own bytes make of it, in their order, whatever is sent to the others and
  // whichever is on the screen.
  lemma {:induction false} OwnBytes(g: Geometry, ttys: seq<Tty>, es: seq<Event>, k: nat)
    requires After(g, ttys, es).Some? && k < |ttys|
    ensures |After(g, ttys, es).value| == |ttys|
    ensures Fed(g, ttys[k], BytesFor(k, es)) == Some(After(g, ttys, es).value[k])
    decreases |es|
  {
    hide Put, Safe, LeavesGrid;
    if es != [] {
      var next := Apply(g, ttys, es[0]);
      OwnBytes(g, next, es[1..], k);
      if es[0].Byte? && es[0].tty == k {
        FedOne(g, ttys[k], es[0].c);
        FedConcat(g, ttys[k], [es[0].c], BytesFor(k, es[1..]));
      } else {
        assert [] + BytesFor(k, es[1..]) == BytesFor(k, es[1..]);
      }
    }
  }

  // On the screen is the terminal last switched to.
  lemma {:induction false} LastSwitch(current: nat, es: seq<Event>, k: nat, bytes: seq<Event>)
    requires forall i :: 0 <= i < |bytes| ==> bytes[i].Byte?
    ensures CurrentAfter(current, es + [Switch(k)] + bytes) == k && CurrentAfter(current, bytes) == current
    decreases |bytes|
  {
    if bytes == [] {
      assert es + [Switch(k)] + bytes == es + [Switch(k)];
    } else {
      var n := |bytes| - 1;
      var all := es + [Switch(k)] + bytes;
      assert all[..|all| - 1] == es + [Switch(k)] + bytes[..n] && all[|all| - 1] == bytes[n];
      LastSwitch(current, es, k, bytes[..n]);
    }
  }
}

// What reading, writing and seeking do to a file and its handle, in bytes and positions.

module EchfsLaws {
  import opened Bytes
  import opened EchfsModel
  import opened EchfsSpec

  // The device's words for the end of a chain and for a block that is not for files.
  lemma DeviceWords()
    ensures END_OF_CHAIN == WORD - 1 && RESERVED_BLOCK == WORD - 16
  {
  }

  // A write that succeeds through a handle without O_APPEND puts the bytes at the position of the
  // handle, and changes no other byte.
  lemma WriteAtPosition(size: nat, s: Store, hs: map<int, Handle>, h: int, buf: seq<byte>, r: IoResult, t: Store,
                        ht: map<int, Handle>)
    requires size > 0 && WriteStep(size, s, hs, h, buf, r, t, ht) && r.Done?
    requires h in hs && !hs[h].append && |s.contents| == |s.files|
    ensures var f, p, e := hs[h].file, hs[h].ptr, hs[h].end;
            && f < |s.contents| == |t.contents|
            && (buf != [] ==> p + |buf| <= |FileBytes(t, f)|) && |FileBytes(s, f)| <= |FileBytes(t, f)|
            && (forall k :: 0 <= k < |buf| ==> p + k < |FileBytes(t, f)| && FileBytes(t, f)[p + k] == buf[k])
            && (forall x :: 0 <= x < |FileBytes(s, f)| && !(p <= x < p + |buf|) ==>
                  FileBytes(t, f)[x] == FileBytes(s, f)[x])
            && (forall g :: 0 <= g < |s.contents| && g != f ==> FileBytes(t, g) == FileBytes(s, g))
            && r == Done(|buf|) && ht == hs[h := hs[h].(ptr := p + |buf|, end := if p + |buf| > e then p + |buf| else e)]
  {
    hide Flat, TotalLength, Free, BlocksFor;
    assert Wrote(FileBytes(s, hs[h].file), FileBytes(t, hs[h].file), hs[h].ptr, buf);
  }

  // Through a handle with O_APPEND it puts them at its end, wherever its position is, and changes no
  // byte below.
  lemma WriteAtEnd(size: nat, s: Store, hs: map<int, Handle>, h: int, buf: seq<byte>, r: IoResult, t: Store,
                   ht: map<int, Handle>)
    requires size > 0 && WriteStep(size, s, hs, h, buf, r, t, ht) && r.Done?
    requires h in hs && hs[h].append && |s.contents| == |s.files|
    ensures var f, e := hs[h].file, hs[h].end;
            && f < |s.contents| == |t.contents|
            && (buf != [] ==> e + |buf| <= |FileBytes(t, f)|) && |FileBytes(s, f)| <= |FileBytes(t, f)|
            && (forall k :: 0 <= k < |buf| ==> e + k < |FileBytes(t, f)| && FileBytes(t, f)[e + k] == buf[k])
            && (forall x :: 0 <= x < |FileBytes(s, f)| && x < e ==> FileBytes(t, f)[x] == FileBytes(s, f)[x])
            && (forall g :: 0 <= g < |s.contents| && g != f ==> FileBytes(t, g) == FileBytes(s, g))
            && r == Done(|buf|) && ht == hs[h := hs[h].(ptr := e + |buf|, end := e + |buf|)]
  {
    hide Flat, TotalLength, Free, BlocksFor;
    assert Wrote(FileBytes(s, hs[h].file), FileBytes(t, hs[h].file), hs[h].end, buf);
  }

  // A write that fails half-way leaves the bytes that it transferred at the same place, and its position
  // in front of them.
  lemma WriteFails(size: nat, s: Store, hs: map<int, Handle>, h: int, buf: seq<byte>, n: nat, t: Store, ht: map<int, Handle>)
    requires size > 0 && WriteStep(size, s, hs, h, buf, Failed(EIO, n), t, ht)
    requires h in hs && !hs[h].isDirectory && |s.contents| == |s.files|
    ensures var f, p := hs[h].file, if hs[h].append then hs[h].end else hs[h].ptr;
            && n < |buf| && f < |s.contents| == |t.contents|
            && (forall k :: 0 <= k < n ==> p + k < |FileBytes(t, f)| && FileBytes(t, f)[p + k] == buf[k])
            && (forall x :: 0 <= x < |FileBytes(s, f)| && !(p <= x < p + n) ==>
                  x < |FileBytes(t, f)| && FileBytes(t, f)[x] == FileBytes(s, f)[x])
            && ht == hs[h := hs[h].(ptr := p)]
  {
    hide Flat, TotalLength, Free, BlocksFor;
    assert Wrote(FileBytes(s, hs[h].file), FileBytes(t, hs[h].file), StartOf(hs[h]), buf[..n]);
  }

  // Where an offset counts from.
  function Origin(h: Handle, whence: Whence): nat {
    if whence == SeekSet then 0 else if whence == SeekCur then h.ptr else h.end
  }

  // A seek to a position from 0 on goes there, unless that is at or past the end and the handle is not
  // for writing.
  lemma SeekMoves(hs: map<int, Handle>, h: int, offset: int, whence: Whence, r: IoResult, ht: map<int, Handle>)
    requires SeekStep(hs, h, offset, whence, r, ht) && h in hs
    requires 0 <= Origin(hs[h], whence) + offset < WORD
    ensures var p: nat := Origin(hs[h], whence) + offset;
            if p >= hs[h].end && !hs[h].writable then r == Failed(EINVAL, 0) && ht == hs
            else r == Done(p) && ht == hs[h := hs[h].(ptr := p)]
  {
    assert (Origin(hs[h], whence) + offset) % WORD == Origin(hs[h], whence) + offset;
  }

  // A step back takes back a step forward; and the end is where the file ends, not where the handle is.
  lemma SeekBackAndForth(hs: map<int, Handle>, h: int, d: int, r: IoResult, mid: map<int, Handle>, q: IoResult,
                         ht: map<int, Handle>)
    requires d >= 0 && SeekStep(hs, h, d, SeekCur, r, mid) && h in hs && hs[h].ptr + d < WORD && r.Done?
    requires h in mid && SeekStep(mid, h, -d, SeekCur, q, ht) && q.Done?
    ensures ht == hs && q == Done(hs[h].ptr)
  {
    SeekMoves(hs, h, d, SeekCur, r, mid);
    SeekMoves(mid, h, -d, SeekCur, q, ht);
    assert hs[h := hs[h].(ptr := hs[h].ptr)] == hs;
  }

  // A read that succeeds returns the bytes from the position on, as many as asked for or as are left
  // before the end, and moves the position behind them.
  lemma ReadAtPosition(size: nat, s: Store, hs: map<int, Handle>, h: int, want: nat, r: IoResult, buf: seq<byte>, t: Store,
                       ht: map<int, Handle>)
    requires size > 0 && ReadStep(size, s, hs, h, want, r, buf, t, ht) && r.Done? && h in hs
    requires hs[h].ptr <= hs[h].end < WORD && hs[h].ptr + want < WORD
    ensures var f, p, e := hs[h].file, hs[h].ptr, hs[h].end;
            && r == Done(|buf|) && |buf| == (if p + want <= e then want else e - p)
            && f < |t.contents| && (buf != [] ==> p + |buf| <= |FileBytes(t, f)|)
            && (forall k :: 0 <= k < |buf| ==> p + k < |FileBytes(t, f)| && buf[k] == FileBytes(t, f)[p + k])
            && ht == hs[h := hs[h].(ptr := p + |buf|)]
  {
    ClipExact(hs[h].ptr, hs[h].end, want);
  }

  // Over a run: what is written at a position is read back from it.
  lemma SeekWriteSeekRead(size: nat, start: nat, xs: seq<State>, ops: seq<Op>, outs: seq<Outcome>, h: int, p: nat,
                          buf: seq<byte>)
    requires Run(size, start, xs, ops, outs) && |outs| == 4
    requires ops[..4] == [SeekOp(h, p, SeekSet), WriteOp(h, buf), SeekOp(h, p, SeekSet), ReadOp(h, |buf|)]
    requires forall i :: 0 <= i < 4 ==> outs[i].Io? && outs[i].r.Done?
    requires h in xs[0].hs && !xs[0].hs[h].isDirectory && !xs[0].hs[h].append && p + |buf| < WORD && xs[0].hs[h].end < WORD
    ensures outs[3].bytes == buf
  {
    hide StateOk, WriteStep, ReadStep, SeekStep, FileBytes;
    RunAt(size, start, xs, ops, outs, 0);
    RunAt(size, start, xs, ops, outs, 1);
    RunAt(size, start, xs, ops, outs, 2);
    RunAt(size, start, xs, ops, outs, 3);
    assert ops[0] == SeekOp(h, p, SeekSet) && ops[1] == WriteOp(h, buf);
    assert ops[2] == SeekOp(h, p, SeekSet) && ops[3] == ReadOp(h, |buf|);
    SeekMoves(xs[0].hs, h, p, SeekSet, outs[0].r, xs[1].hs);
    WriteAtPosition(size, xs[1].s, xs[1].hs, h, buf, outs[1].r, xs[2].s, xs[2].hs);
    SeekMoves(xs[2].hs, h, p, SeekSet, outs[2].r, xs[3].hs);
    ReadAtPosition(size, xs[3].s, xs[3].hs, h, |buf|, outs[3].r, outs[3].bytes, xs[4].s, xs[4].hs);
    ReadKeeps(size, xs[3].s, xs[3].hs, h, |buf|, outs[3].r, outs[3].bytes, xs[4].s, xs[4].hs);
  }

  // A read changes no byte that is there.
  lemma ReadKeeps(size: nat, s: Store, hs: map<int, Handle>, h: int, want: nat, r: IoResult, buf: seq<byte>, t: Store,
                  ht: map<int, Handle>)
    requires size > 0 && ReadStep(size, s, hs, h, want, r, buf, t, ht) && h in hs && !hs[h].isDirectory
    ensures var f := hs[h].file;
            && f < |s.contents| && f < |t.contents| && |FileBytes(s, f)| <= |FileBytes(t, f)|
            && forall x :: 0 <= x < |FileBytes(s, f)| ==> FileBytes(t, f)[x] == FileBytes(s, f)[x]
  {
    FlatPrefix(s.contents[hs[h].file], t.contents[hs[h].file]);
  }
}

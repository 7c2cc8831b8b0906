// What the operations of the echfs driver promise, one step at a time and over whole runs.

module EchfsSpec {
  import opened Bytes
  import opened EchfsModel

  // An open file description.
  datatype Handle = Handle(file: nat, ptr: nat, end: nat, append: bool, writable: bool, isDirectory: bool)

  datatype Errno = EBADF | EISDIR | EIO | EINVAL

  // `progress` is how many bytes were transferred before an EIO.
  datatype IoResult = Done(count: nat) | Failed(errno: Errno, progress: nat)

  // How much of a read of `want` bytes is granted, in the unsigned 64-bit arithmetic of the driver.
  function Clip(ptr: nat, end: nat, want: nat): nat {
    if (ptr + want) % WORD >= end then (end - ptr) % WORD else want
  }

  const WORD: nat := 0x1_0000_0000_0000_0000

  // Where a write through `h` starts.
  function StartOf(h: Handle): nat {
    if h.append then h.end else h.ptr
  }

  // What a read through `h` may do.
  ghost predicate ReadStep(size: nat, s: Store, hs: map<int, Handle>, h: int, want: nat,
                           r: IoResult, buf: seq<byte>, t: Store, ht: map<int, Handle>)
    requires size > 0
  {
    if h !in hs then
      r == Failed(EBADF, 0) && buf == [] && t == s && ht == hs
    else if hs[h].isDirectory then
      r == Failed(EISDIR, 0) && buf == [] && t == s && ht == hs
    else
      && ReadFile(s, t, hs[h].file, hs[h].ptr, buf, size)
      && match r
         case Done(n) =>
           n == Clip(hs[h].ptr, hs[h].end, want) == |buf| && ht == hs[h := hs[h].(ptr := hs[h].ptr + n)]
         case Failed(e, n) =>
           e == EIO && n == |buf| < Clip(hs[h].ptr, hs[h].end, want) && ht == hs
  }

  // What a write through `h` may do.
  ghost predicate WriteStep(size: nat, s: Store, hs: map<int, Handle>, h: int, buf: seq<byte>,
                            r: IoResult, t: Store, ht: map<int, Handle>)
    requires size > 0
  {
    if h !in hs then
      r == Failed(EBADF, 0) && t == s && ht == hs
    else if hs[h].isDirectory then
      r == Failed(EISDIR, 0) && t == s && ht == hs
    else
      var f, pos, end := hs[h].file, StartOf(hs[h]), hs[h].end;
      && f < |s.files| == |t.files|
      && match r
         case Done(n) =>
           && n == |buf|
           && WroteFile(s, t, f, pos, buf, size)
           && t.files[f].target.size == (if pos + n > end then pos + n else s.files[f].target.size)
           && ht == hs[h := hs[h].(ptr := pos + n, end := Max(end, pos + n))]
         case Failed(e, n) =>
           && e == EIO && n < |buf|
           && WroteFile(s, t, f, pos, buf[..n], size)
           && t.files[f].target.size == s.files[f].target.size
           && ht == hs[h := hs[h].(ptr := pos)]
  }

  // The write loop done, then the handle and the size brought up to date.
  ghost function SizeUpdated(t: Store, handle: Handle, n: nat): Store
    requires handle.file < |t.files|
  {
    if handle.ptr + n > handle.end then Resized(t, handle.file, handle.ptr + n) else t
  }

  function Moved(handle: Handle, n: nat): Handle {
    handle.(ptr := handle.ptr + n, end := Max(handle.end, handle.ptr + n))
  }

  lemma WriteStepDone(size: nat, s: Store, hs: map<int, Handle>, h: int, buf: seq<byte>, t: Store)
    requires size > 0 && h in hs && !hs[h].isDirectory && hs[h].file < |s.files| == |t.files|
    requires WroteFile(s, t, hs[h].file, StartOf(hs[h]), buf, size)
    requires t.files[hs[h].file].target.size == s.files[hs[h].file].target.size
    ensures var handle := hs[h].(ptr := StartOf(hs[h]));
            WriteStep(size, s, hs, h, buf, Done(|buf|), SizeUpdated(t, handle, |buf|), hs[h := Moved(handle, |buf|)])
  {
    WroteResized(s, t, hs[h].file, StartOf(hs[h]), buf, size, StartOf(hs[h]) + |buf|);
  }

  lemma WriteStepFailed(size: nat, s: Store, hs: map<int, Handle>, h: int, buf: seq<byte>, n: nat, t: Store,
                        ht: map<int, Handle>)
    requires size > 0 && h in hs && !hs[h].isDirectory && hs[h].file < |s.files| == |t.files| && n < |buf|
    requires WroteFile(s, t, hs[h].file, StartOf(hs[h]), buf[..n], size)
    requires t.files[hs[h].file].target.size == s.files[hs[h].file].target.size
    requires ht == hs[h := hs[h].(ptr := StartOf(hs[h]))]
    ensures WriteStep(size, s, hs, h, buf, Failed(EIO, n), t, ht)
  {
  }

  ghost predicate HandlesOk(s: Store, hs: map<int, Handle>) {
    forall h :: h in hs && !hs[h].isDirectory ==> hs[h].file < |s.files| && s.files[hs[h].file].cached
  }

  // Enough free blocks for file `f` to reach `n` bytes.
  ghost predicate Room(size: nat, s: Store, f: nat, n: nat) {
    size > 0 && f < |s.chains| && BlocksFor(n, size) <= |s.chains[f]| + |Free(s.fat)|
  }

  ghost predicate CanRead(size: nat, s: Store, hs: map<int, Handle>, h: int, want: nat) {
    h in hs && !hs[h].isDirectory ==>
      var stop := hs[h].ptr + Clip(hs[h].ptr, hs[h].end, want);
      stop < WORD && Room(size, s, hs[h].file, stop)
  }

  ghost predicate CanWrite(size: nat, s: Store, hs: map<int, Handle>, h: int, buf: seq<byte>) {
    h in hs && !hs[h].isDirectory ==> Room(size, s, hs[h].file, StartOf(hs[h]) + |buf|)
  }

  lemma HandlesKept(s: Store, hs: map<int, Handle>, t: Store, h: int, handle: Handle)
    requires HandlesOk(s, hs) && |t.files| == |s.files|
    requires forall i :: 0 <= i < |s.files| ==> t.files[i].cached == s.files[i].cached
    requires handle.isDirectory || (handle.file < |s.files| && s.files[handle.file].cached)
    ensures HandlesOk(t, hs[h := handle])
  {
  }

  datatype Whence = SeekSet | SeekCur | SeekEnd

  // A position is an unsigned 64-bit word, so below zero it is far beyond any end.
  function SeekTarget(h: Handle, offset: int, whence: Whence): nat {
    match whence
    case SeekSet => offset % WORD
    case SeekCur => (h.ptr + offset) % WORD
    case SeekEnd => (h.end + offset) % WORD
  }

  // What a call returns to its caller: a count or position cut to an `int`, or -1.
  function Returned(r: IoResult): int {
    match r
    case Done(n) => (n + 0x8000_0000) % 0x1_0000_0000 - 0x8000_0000
    case Failed(_, _) => -1
  }

  // Moving a handle: past the end only if it is writable.
  ghost predicate SeekStep(hs: map<int, Handle>, h: int, offset: int, whence: Whence, r: IoResult, ht: map<int, Handle>) {
    if h !in hs then
      r == Failed(EBADF, 0) && ht == hs
    else
      var p := SeekTarget(hs[h], offset, whence);
      if p >= hs[h].end && !hs[h].writable then
        r == Failed(EINVAL, 0) && ht == hs
      else
        r == Done(p) && ht == hs[h := hs[h].(ptr := p)]
  }

  // Opening an existing file under the new handle `h`, emptied first if `trunc`.
  ghost predicate OpenStep(s: Store, hs: map<int, Handle>, f: nat, trunc: bool, append: bool, writable: bool,
                           h: int, t: Store, ht: map<int, Handle>) {
    && h !in hs && f < |s.files| == |t.files|
    && |s.chains| == |t.chains| == |s.contents| == |t.contents| == |s.files|
    && (forall i :: 0 <= i < |s.files| && i != f ==> t.files[i] == s.files[i])
    && t.files[f].target == (if trunc then Entry(END_OF_CHAIN, 0) else s.files[f].target)
    && t.contents == (if trunc then s.contents[f := []] else s.contents)
    && t.chains == (if trunc then s.chains[f := []] else s.chains)
    && Free(t.fat) == (if trunc then Free(s.fat) + Elements(s.chains[f]) else Free(s.fat))
    && |Free(t.fat)| + TotalLength(t.chains) == |Free(s.fat)| + TotalLength(s.chains)
    && ht == hs[h := Handle(f, 0, t.files[f].target.size, append, writable, false)]
  }

  // The file in the cache, and emptied if `trunc`.
  ghost function InCache(s: Store, f: nat): Store
    requires f < |s.files| == |s.chains|
  {
    if s.files[f].cached then s else Opened(s, f)
  }

  lemma OpenIs(s: Store, hs: map<int, Handle>, f: nat, trunc: bool, append: bool, writable: bool, h: int, t: Store,
               size: nat, start: nat)
    requires StoreOk(s, size, start) && f < |s.files| == |s.chains| == |s.contents| && h !in hs && HandlesOk(s, hs)
    requires StoreOk(InCache(s, f), size, start)
    requires trunc ==> (forall k :: 0 <= k < |s.chains[f]| ==> s.chains[f][k] < |s.fat|)
    requires t == if trunc then Erased(InCache(s, f), f) else InCache(s, f)
    ensures var ht := hs[h := Handle(f, 0, t.files[f].target.size, append, writable, false)];
            OpenStep(s, hs, f, trunc, append, writable, h, t, ht) && HandlesOk(t, ht)
  {
    hide StoreOk, Emptied, Zeroed, InCache;
    InCacheIs(s, f);
    if trunc {
      EraseStore(InCache(s, f), f, size, start);
    }
  }

  lemma InCacheIs(s: Store, f: nat)
    requires f < |s.files| == |s.chains|
    ensures var t := InCache(s, f);
            && t == s.(files := t.files) && |t.files| == |s.files| && t.files[f].cached
            && t.files[f].target == s.files[f].target
            && forall i :: 0 <= i < |s.files| && i != f ==> t.files[i] == s.files[i]
  {
  }

  // A new empty file, the last of the mount, under the new handle `h`.
  ghost predicate CreateStep(s: Store, hs: map<int, Handle>, append: bool, writable: bool,
                             h: int, t: Store, ht: map<int, Handle>) {
    && h !in hs
    && |t.files| == |s.files| + 1 && s.files == t.files[..|s.files|]
    && t.files[|s.files|].target == Entry(END_OF_CHAIN, 0)
    && t.contents == s.contents + [[]] && t.chains == s.chains + [[]]
    && t.fat == s.fat && t.data == s.data
    && ht == hs[h := Handle(|s.files|, 0, 0, append, writable, false)]
  }

  // Writing a file back: the device catches up and nothing visible changes.
  ghost predicate SyncStep(s: Store, hs: map<int, Handle>, f: nat, t: Store, ht: map<int, Handle>) {
    && f < |s.files| == |t.files| && OnDevice(t, f)
    && t.contents == s.contents && t.chains == s.chains && t.fat == s.fat && ht == hs
    && (forall i :: 0 <= i < |s.files| && i != f ==> t.files[i] == s.files[i])
    && t.files[f].target == s.files[f].target
  }

  datatype Op =
    | ReadOp(h: int, want: nat)
    | WriteOp(h: int, buf: seq<byte>)
    | SeekOp(h: int, offset: int, whence: Whence)
    | OpenOp(f: nat, trunc: bool, append: bool, writable: bool)
    | CreateOp(append: bool, writable: bool)
    | SyncOp(f: nat)

  datatype Outcome = Io(r: IoResult, bytes: seq<byte>) | NewHandle(h: int) | Synced

  // A state of the mount between two operations.
  datatype State = State(s: Store, hs: map<int, Handle>)

  ghost predicate Step(size: nat, x: State, op: Op, out: Outcome, y: State)
    requires size > 0
  {
    match op
    case ReadOp(h, want) => out.Io? && ReadStep(size, x.s, x.hs, h, want, out.r, out.bytes, y.s, y.hs)
    case WriteOp(h, buf) => out.Io? && WriteStep(size, x.s, x.hs, h, buf, out.r, y.s, y.hs)
    case SeekOp(h, offset, whence) => out.Io? && SeekStep(x.hs, h, offset, whence, out.r, y.hs) && y.s == x.s
    case OpenOp(f, trunc, append, writable) =>
      out.NewHandle? && OpenStep(x.s, x.hs, f, trunc, append, writable, out.h, y.s, y.hs)
    case CreateOp(append, writable) => out.NewHandle? && CreateStep(x.s, x.hs, append, writable, out.h, y.s, y.hs)
    case SyncOp(f) => SyncStep(x.s, x.hs, f, y.s, y.hs)
  }

  // What the driver asks of a caller: the FAT has enough free entries for what the operation may
  // allocate, and a read stays within 64-bit positions.
  ghost predicate Admissible(size: nat, x: State, op: Op) {
    match op
    case ReadOp(h, want) => CanRead(size, x.s, x.hs, h, want)
    case WriteOp(h, buf) => CanWrite(size, x.s, x.hs, h, buf)
    case SeekOp(_, _, _) => true
    case OpenOp(f, _, _, _) => f < |x.s.files|
    case CreateOp(_, _) => true
    case SyncOp(f) => f < |x.s.files| && x.s.files[f].cached
  }

  ghost predicate StateOk(size: nat, start: nat, x: State) {
    StoreOk(x.s, size, start) && HandlesOk(x.s, x.hs)
  }

  // A run: each operation is a step between consecutive good states.
  ghost predicate Run(size: nat, start: nat, xs: seq<State>, ops: seq<Op>, outs: seq<Outcome>) {
    && size > 0 && |xs| == |outs| + 1 && |outs| <= |ops|
    && (forall i :: 0 <= i < |xs| ==> StateOk(size, start, xs[i]))
    && (forall i :: 0 <= i < |outs| ==> Step(size, xs[i], ops[i], outs[i], xs[i + 1]))
  }

  ghost function FileBytes(s: Store, f: nat): seq<byte>
    requires f < |s.contents|
  {
    Flat(s.contents[f])
  }

  // How many bytes a write transferred.
  function Progress(out: Outcome): nat {
    match out
    case Io(Done(n), _) => n
    case Io(Failed(_, n), _) => n
    case _ => 0
  }

  // Operation `op`, run in state `x`, writes byte `p` of file `f`.
  predicate Covers(x: State, op: Op, out: Outcome, f: nat, p: nat) {
    && op.WriteOp? && op.h in x.hs && !x.hs[op.h].isDirectory && x.hs[op.h].file == f
    && StartOf(x.hs[op.h]) <= p < StartOf(x.hs[op.h]) + Progress(out)
    && p - StartOf(x.hs[op.h]) < |op.buf|
  }

  // Byte `p` of file `f` after `n` operations: what the last write over it since state `m` put there,
  // else `init`.
  ghost function LastWritten(xs: seq<State>, ops: seq<Op>, outs: seq<Outcome>, f: nat, p: nat, m: nat, n: nat,
                             init: byte): byte
    requires m <= n <= |xs| && n <= |ops| && n <= |outs|
    decreases n
  {
    if n == m then init
    else if Covers(xs[n - 1], ops[n - 1], outs[n - 1], f, p) then ops[n - 1].buf[p - StartOf(xs[n - 1].hs[ops[n - 1].h])]
    else LastWritten(xs, ops, outs, f, p, m, n - 1, init)
  }

  predicate Truncates(op: Op, f: nat) {
    op.OpenOp? && op.f == f && op.trunc
  }

  // One operation changes byte `p` of file `f` only by writing it, and never drops it unless it
  // empties the file.
  lemma StepByte(size: nat, x: State, op: Op, out: Outcome, y: State, f: nat, p: nat)
    requires size > 0 && Step(size, x, op, out, y) && !Truncates(op, f)
    requires f < |x.s.contents| == |x.s.files| && p < |FileBytes(x.s, f)|
    ensures f < |y.s.contents| && p < |FileBytes(y.s, f)|
    ensures FileBytes(y.s, f)[p]
            == if Covers(x, op, out, f, p) then op.buf[p - StartOf(x.hs[op.h])] else FileBytes(x.s, f)[p]
  {
    match op
    case ReadOp(h, want) =>
      if h in x.hs && x.hs[h].file == f && !x.hs[h].isDirectory {
        FlatPrefix(x.s.contents[f], y.s.contents[f]);
      }
    case WriteOp(h, buf) =>
      if h in x.hs && x.hs[h].file == f && !x.hs[h].isDirectory {
        var w := buf[..Progress(out)];
        assert Progress(out) == |buf| ==> w == buf;
        assert Wrote(FileBytes(x.s, f), FileBytes(y.s, f), StartOf(x.hs[h]), w);
      }
    case _ =>
  }

  // The facts about one step of a run.
  lemma RunAt(size: nat, start: nat, xs: seq<State>, ops: seq<Op>, outs: seq<Outcome>, i: nat)
    requires Run(size, start, xs, ops, outs) && i < |outs|
    ensures size > 0 && |xs| == |outs| + 1 && |outs| <= |ops|
    ensures Step(size, xs[i], ops[i], outs[i], xs[i + 1])
    ensures |xs[i].s.files| == |xs[i].s.chains| == |xs[i].s.contents|
  {
    assert StateOk(size, start, xs[i]);
  }

  // A write makes the bytes it covers, whether or not the file or the byte was there before.
  lemma CoveredByte(size: nat, x: State, op: Op, out: Outcome, y: State, f: nat, p: nat)
    requires size > 0 && Step(size, x, op, out, y) && Covers(x, op, out, f, p)
    requires |x.s.contents| == |x.s.files|
    ensures f < |y.s.contents| && p < |FileBytes(y.s, f)|
    ensures FileBytes(y.s, f)[p] == op.buf[p - StartOf(x.hs[op.h])]
  {
    var w := op.buf[..Progress(out)];
    assert Progress(out) == |op.buf| ==> w == op.buf;
    assert Wrote(FileBytes(x.s, f), FileBytes(y.s, f), StartOf(x.hs[op.h]), w);
  }

  // Each file is a byte array of its own: from any moment `m` of a run at which the file has byte `p`,
  // and until the file is emptied, the byte is what the last write over it put there.  Reads,
  // caching, eviction, growth and write-back of this or any other file never change it.
  lemma {:induction false} FilesAreByteArrays(size: nat, start: nat, xs: seq<State>, ops: seq<Op>, outs: seq<Outcome>,
                                              f: nat, p: nat, m: nat, n: nat)
    requires Run(size, start, xs, ops, outs) && m <= n <= |outs|
    requires f < |xs[m].s.contents| && p < |FileBytes(xs[m].s, f)|
    requires forall i :: m <= i < n ==> !Truncates(ops[i], f)
    ensures f < |xs[n].s.contents| && p < |FileBytes(xs[n].s, f)|
    ensures FileBytes(xs[n].s, f)[p] == LastWritten(xs, ops, outs, f, p, m, n, FileBytes(xs[m].s, f)[p])
    decreases n
  {
    hide StateOk, Step;
    if n != m {
      FilesAreByteArrays(size, start, xs, ops, outs, f, p, m, n - 1);
      RunAt(size, start, xs, ops, outs, n - 1);
      StepByte(size, xs[n - 1], ops[n - 1], outs[n - 1], xs[n], f, p);
    }
  }

  lemma {:induction false} NotWrittenSince(xs: seq<State>, ops: seq<Op>, outs: seq<Outcome>, f: nat, p: nat, m: nat, n: nat,
                                           init: byte)
    requires m <= n <= |xs| && n <= |ops| && n <= |outs|
    requires forall i :: m <= i < n ==> !Covers(xs[i], ops[i], outs[i], f, p)
    ensures LastWritten(xs, ops, outs, f, p, m, n, init) == init
    decreases n
  {
    hide Covers;
    if n != m {
      NotWrittenSince(xs, ops, outs, f, p, m, n - 1, init);
    }
  }

  // The last write over byte `p` of file `f` was operation `m`, and the file was not emptied since.
  ghost predicate LastWrite(xs: seq<State>, ops: seq<Op>, outs: seq<Outcome>, f: nat, p: nat, m: nat, n: nat)
    requires m < n <= |xs| && n <= |ops| && n <= |outs|
  {
    && Covers(xs[m], ops[m], outs[m], f, p)
    && forall i :: m < i < n ==> !Truncates(ops[i], f) && !Covers(xs[i], ops[i], outs[i], f, p)
  }

  // Whatever the state the run began in, and whether the file or the byte existed then, the byte is
  // what its last write put there.
  lemma ByteOfLastWrite(size: nat, start: nat, xs: seq<State>, ops: seq<Op>, outs: seq<Outcome>, f: nat, p: nat,
                        m: nat, n: nat)
    requires Run(size, start, xs, ops, outs) && m < n <= |outs| && LastWrite(xs, ops, outs, f, p, m, n)
    ensures f < |xs[n].s.contents| && p < |FileBytes(xs[n].s, f)|
    ensures FileBytes(xs[n].s, f)[p] == ops[m].buf[p - StartOf(xs[m].hs[ops[m].h])]
  {
    hide StateOk, Step, FileBytes, LastWritten;
    RunAt(size, start, xs, ops, outs, m);
    CoveredByte(size, xs[m], ops[m], outs[m], xs[m + 1], f, p);
    FilesAreByteArrays(size, start, xs, ops, outs, f, p, m + 1, n);
    NotWrittenSince(xs, ops, outs, f, p, m + 1, n, FileBytes(xs[m + 1].s, f)[p]);
  }

  // So a read that succeeds returns, byte for byte, what was last written.
  lemma ReadsReturnLastWritten(size: nat, start: nat, xs: seq<State>, ops: seq<Op>, outs: seq<Outcome>, m: nat, n: nat,
                               k: nat, f: nat, p: nat)
    requires Run(size, start, xs, ops, outs) && m < n < |outs| && LastWrite(xs, ops, outs, f, p, m, n)
    requires ops[n].ReadOp? && outs[n].Io? && outs[n].r.Done? && k < |outs[n].bytes|
    requires ops[n].h in xs[n].hs && !xs[n].hs[ops[n].h].isDirectory
    requires f == xs[n].hs[ops[n].h].file && p == xs[n].hs[ops[n].h].ptr + k
    ensures outs[n].bytes[k] == ops[m].buf[p - StartOf(xs[m].hs[ops[m].h])]
  {
    hide Run, LastWrite, FileBytes;
    ByteOfLastWrite(size, start, xs, ops, outs, f, p, m, n);
    RunAt(size, start, xs, ops, outs, n);
    StepRead(size, xs[n], ops[n], outs[n], xs[n + 1]);
    ReadByte(size, xs[n].s, xs[n + 1].s, f, xs[n].hs[ops[n].h].ptr, outs[n].bytes, k);
  }

  // A read of bytes that nothing in the run wrote returns what the file held when the run began.
  lemma ReadsReturnFirstContents(size: nat, start: nat, xs: seq<State>, ops: seq<Op>, outs: seq<Outcome>, n: nat,
                                 k: nat, f: nat, p: nat)
    requires Run(size, start, xs, ops, outs) && n < |outs|
    requires ops[n].ReadOp? && outs[n].Io? && outs[n].r.Done? && k < |outs[n].bytes|
    requires ops[n].h in xs[n].hs && !xs[n].hs[ops[n].h].isDirectory
    requires f == xs[n].hs[ops[n].h].file && p == xs[n].hs[ops[n].h].ptr + k
    requires f < |xs[0].s.contents| && p < |FileBytes(xs[0].s, f)|
    requires forall i :: 0 <= i < n ==> !Truncates(ops[i], f) && !Covers(xs[i], ops[i], outs[i], f, p)
    ensures outs[n].bytes[k] == FileBytes(xs[0].s, f)[p]
  {
    hide Run, Covers, FileBytes, LastWritten;
    RunAt(size, start, xs, ops, outs, n);
    FilesAreByteArrays(size, start, xs, ops, outs, f, p, 0, n);
    NotWrittenSince(xs, ops, outs, f, p, 0, n, FileBytes(xs[0].s, f)[p]);
    StepRead(size, xs[n], ops[n], outs[n], xs[n + 1]);
    ReadByte(size, xs[n].s, xs[n + 1].s, f, xs[n].hs[ops[n].h].ptr, outs[n].bytes, k);
  }

  lemma StepRead(size: nat, x: State, op: Op, out: Outcome, y: State)
    requires size > 0 && Step(size, x, op, out, y) && op.ReadOp? && out.Io?
    requires op.h in x.hs && !x.hs[op.h].isDirectory
    ensures ReadFile(x.s, y.s, x.hs[op.h].file, x.hs[op.h].ptr, out.bytes, size)
  {
  }

  lemma ReadByte(size: nat, s: Store, t: Store, f: nat, pos: nat, bytes: seq<byte>, k: nat)
    requires size > 0 && ReadFile(s, t, f, pos, bytes, size) && k < |bytes|
    requires pos + k < |FileBytes(s, f)|
    ensures bytes[k] == FileBytes(s, f)[pos + k]
  {
    FlatPrefix(s.contents[f], t.contents[f]);
  }

  lemma {:induction false} TotalLengthAppend(chains: seq<seq<nat>>)
    ensures TotalLength(chains + [[]]) == TotalLength(chains)
  {
    if chains != [] {
      TotalLengthAppend(chains[1..]);
      assert (chains + [[]])[1..] == chains[1..] + [[]];
    }
  }

  lemma StepConserves(size: nat, x: State, op: Op, out: Outcome, y: State)
    requires size > 0 && Step(size, x, op, out, y)
    ensures |Free(y.s.fat)| + TotalLength(y.s.chains) == |Free(x.s.fat)| + TotalLength(x.s.chains)
  {
    if op.CreateOp? {
      TotalLengthAppend(x.s.chains);
    }
  }

  // No run makes or loses a block: free entries plus chain lengths stay constant.
  lemma {:induction false} BlocksConserved(size: nat, start: nat, xs: seq<State>, ops: seq<Op>, outs: seq<Outcome>, n: nat)
    requires Run(size, start, xs, ops, outs) && n <= |outs|
    ensures |Free(xs[n].s.fat)| + TotalLength(xs[n].s.chains) == |Free(xs[0].s.fat)| + TotalLength(xs[0].s.chains)
  {
    hide Step, StateOk;
    if n != 0 {
      BlocksConserved(size, start, xs, ops, outs, n - 1);
      RunAt(size, start, xs, ops, outs, n - 1);
      StepConserves(size, xs[n - 1], ops[n - 1], outs[n - 1], xs[n]);
    }
  }

  // The size the driver records after a write is right -- the old size, or the end of the write if
  // that is larger -- exactly when the handle's idea of the end agrees with the file's on which
  // side of it the write stops.
  lemma WriteSizeExact(size: nat, s: Store, hs: map<int, Handle>, h: int, buf: seq<byte>, r: IoResult, t: Store,
                       ht: map<int, Handle>)
    requires size > 0 && WriteStep(size, s, hs, h, buf, r, t, ht) && r.Done?
    ensures var f, stop := hs[h].file, StartOf(hs[h]) + |buf|;
            t.files[f].target.size == Max(s.files[f].target.size, stop)
            <==> if stop > hs[h].end then s.files[f].target.size <= stop else stop <= s.files[f].target.size
  {
  }

  // A read either stays inside the end of its handle or runs past all 64-bit positions.  It stays inside
  // exactly if it starts there and position and count do not overflow.
  lemma ClipExact(ptr: nat, end: nat, want: nat)
    requires ptr < WORD && end < WORD && want < WORD
    ensures ptr + Clip(ptr, end, want) <= end <==> ptr <= end && ptr + want < WORD
    ensures ptr + Clip(ptr, end, want) < WORD <==> ptr <= end && ptr + want < WORD
    ensures ptr <= end && ptr + want < WORD ==> Clip(ptr, end, want) == if ptr + want >= end then end - ptr else want
  {
    if ptr <= end {
      assert (end - ptr) % WORD == end - ptr;
    } else {
      assert (end - ptr) % WORD == end - ptr + WORD;
    }
    if ptr + want >= WORD {
      assert (ptr + want) % WORD == ptr + want - WORD;
    }
  }
}

// The AHCI driver's write-back block cache over a device whose transfers may fail.

module Ahci {
  import opened Bytes

  const BYTES_PER_BLOCK: nat := 65536
  const MAX_CACHED_BLOCKS: nat := 8192

  datatype Status = NotReady | Ready | Dirty
  datatype Slot = Slot(block: nat, status: Status, cache: Block)

  // ---------- the cache as a value ----------

  ghost predicate NoDirty(slots: seq<Slot>, b: nat) {
    forall s :: 0 <= s < |slots| && slots[s].status.Dirty? ==> slots[s].block != b
  }

  ghost predicate Holds(slots: seq<Slot>, b: nat) {
    exists s :: 0 <= s < |slots| && !slots[s].status.NotReady? && slots[s].block == b
  }

  // Slots in use show the visible contents, at most one per block, and the disk has every block
  // that is not dirty.
  ghost predicate Coherent(slots: seq<Slot>, disk: seq<Block>, contents: seq<Block>) {
    && |contents| == |disk| && Blocky(disk, BYTES_PER_BLOCK) && Blocky(contents, BYTES_PER_BLOCK)
    && (forall s :: 0 <= s < |slots| && !slots[s].status.NotReady? ==>
          slots[s].block < |contents| && slots[s].cache == contents[slots[s].block])
    && (forall s, t | 0 <= s < t < |slots| ::
          !slots[s].status.NotReady? && !slots[t].status.NotReady? ==> slots[s].block != slots[t].block)
    && (forall b :: 0 <= b < |contents| && NoDirty(slots, b) ==> disk[b] == contents[b])
  }

  // The visible contents are determined by the slots and the disk.
  lemma VisibleDetermined(slots: seq<Slot>, disk: seq<Block>, x: seq<Block>, y: seq<Block>)
    requires Coherent(slots, disk, x) && Coherent(slots, disk, y)
    ensures x == y
  {
    forall b | 0 <= b < |x|
      ensures x[b] == y[b]
    {
      if !NoDirty(slots, b) {
        var s :| 0 <= s < |slots| && slots[s].status.Dirty? && slots[s].block == b;
      }
    }
  }

  // With nothing dirty, the disk is what is visible.
  lemma CleanIsDisk(slots: seq<Slot>, disk: seq<Block>, contents: seq<Block>)
    requires Coherent(slots, disk, contents)
    requires forall s :: 0 <= s < |slots| ==> !slots[s].status.Dirty?
    ensures disk == contents
  {
    forall b | 0 <= b < |contents|
      ensures disk[b] == contents[b]
    {
      assert NoDirty(slots, b);
    }
  }

  lemma Flushed(slots: seq<Slot>, disk: seq<Block>, contents: seq<Block>, s: nat)
    requires Coherent(slots, disk, contents) && s < |slots| && slots[s].status.Dirty?
    ensures slots[s].block < |disk|
    ensures Coherent(slots, disk[slots[s].block := slots[s].cache], contents)
  {
  }

  // A block is clean after slot `s` changed if it was clean before, or slot `s` held it.
  lemma StillClean(slots: seq<Slot>, s: nat, slot: Slot, b: nat)
    requires s < |slots| && NoDirty(slots[s := slot], b)
    ensures NoDirty(slots, b) || (slots[s].status.Dirty? && slots[s].block == b)
  {
    forall t | 0 <= t < |slots| && t != s
      ensures slots[t].status.Dirty? ==> slots[t].block != b
    {
      assert slots[s := slot][t] == slots[t];
    }
  }

  lemma Loaded(slots: seq<Slot>, disk: seq<Block>, contents: seq<Block>, s: nat, b: nat)
    requires Coherent(slots, disk, contents) && s < |slots| && b < |disk| && !Holds(slots, b)
    requires slots[s].status.Dirty? ==> slots[s].block < |disk| && disk[slots[s].block] == contents[slots[s].block]
    ensures Coherent(slots[s := Slot(b, Ready, disk[b])], disk, contents)
  {
    var slot := Slot(b, Ready, disk[b]);
    assert NoDirty(slots, b);
    forall c | 0 <= c < |contents| && NoDirty(slots[s := slot], c)
      ensures disk[c] == contents[c]
    {
      StillClean(slots, s, slot, c);
    }
  }

  lemma Cleaned(slots: seq<Slot>, disk: seq<Block>, contents: seq<Block>, s: nat)
    requires Coherent(slots, disk, contents) && s < |slots| && slots[s].status.Dirty?
    requires slots[s].block < |disk| && disk[slots[s].block] == contents[slots[s].block]
    ensures Coherent(slots[s := slots[s].(status := Ready)], disk, contents)
  {
    var slot := slots[s].(status := Ready);
    forall c | 0 <= c < |contents| && NoDirty(slots[s := slot], c)
      ensures disk[c] == contents[c]
    {
      StillClean(slots, s, slot, c);
    }
  }

  lemma Stored(slots: seq<Slot>, disk: seq<Block>, contents: seq<Block>, s: nat, v: Block)
    requires Coherent(slots, disk, contents) && s < |slots| && !slots[s].status.NotReady?
    requires |v| == BYTES_PER_BLOCK
    ensures slots[s].block < |contents|
    ensures Coherent(slots[s := Slot(slots[s].block, Dirty, v)], disk, contents[slots[s].block := v])
  {
    var slot := Slot(slots[s].block, Dirty, v);
    forall c | 0 <= c < |contents| && NoDirty(slots[s := slot], c)
      ensures disk[c] == contents[slots[s].block := v][c]
    {
      StillClean(slots, s, slot, c);
      assert slots[s := slot][s] == slot;
    }
  }

  // ---------- the driver ----------

  // A piece read behind what was read so far.
  lemma ReadMore(visible: seq<byte>, loc: nat, sofar: seq<byte>, piece: seq<byte>)
    requires loc + |sofar| + |piece| <= |visible|
    requires |sofar| > 0 ==> sofar == visible[loc..loc + |sofar|]
    requires piece == visible[loc + |sofar|..loc + |sofar| + |piece|]
    ensures sofar + piece == visible[loc..loc + |sofar + piece|]
  {
    assert visible[loc..loc + |sofar|] + visible[loc + |sofar|..loc + |sofar| + |piece|] == visible[loc..loc + |sofar| + |piece|];
  }

  class Drive {
    var slots: array<Slot>
    var overwritten: nat
    var disk: seq<Block>
    var faults: nat  // transfers that have failed so far
    ghost var contents: seq<Block>

    ghost predicate Valid()
      reads this, slots
    {
      slots.Length == MAX_CACHED_BLOCKS && overwritten <= MAX_CACHED_BLOCKS && Coherent(slots[..], disk, contents)
    }

    // The bytes the drive shows.
    ghost function Visible(): seq<byte>
      reads this
    {
      Flat(contents)
    }

    // An attached drive: no slot in use, and the disk is what is visible.
    constructor (d: seq<Block>)
      requires Blocky(d, BYTES_PER_BLOCK)
      ensures Valid() && fresh(slots) && disk == d && contents == d && faults == 0
    {
      slots := new Slot[MAX_CACHED_BLOCKS](_ => Slot(0, NotReady, []));
      overwritten, disk, faults, contents := 0, d, 0, d;
    }

    // Transfers of one block.  Either may fail, and then leaves everything as it was; a block
    // beyond the disk always fails.
    method WriteSectors(block: nat, buf: Block) returns (ok: bool)
      requires |buf| == BYTES_PER_BLOCK
      modifies this`disk, this`faults
      ensures ok ==> block < |old(disk)| && disk == old(disk)[block := buf]
      ensures !ok ==> disk == old(disk)
      ensures faults == if ok then old(faults) else old(faults) + 1
    {
      var fault: bool := *;
      ok := block < |disk| && !fault;
      if ok {
        disk := disk[block := buf];
      } else {
        faults := faults + 1;
      }
    }

    method ReadSectors(block: nat) returns (ok: bool, buf: Block)
      modifies this`faults
      ensures ok ==> block < |disk| && buf == disk[block]
      ensures faults == if ok then old(faults) else old(faults) + 1
    {
      var fault: bool := *;
      ok := block < |disk| && !fault;
      faults := if ok then faults else faults + 1;
      buf := if ok then disk[block] else [];
    }

    method FindBlock(block: nat) returns (slot: int)
      ensures -1 <= slot < slots.Length
      ensures slot != -1 ==> slots[slot].block == block && !slots[slot].status.NotReady?
      ensures slot == -1 ==> !Holds(slots[..], block)
    {
      slot := 0;
      while slot < slots.Length
        invariant 0 <= slot <= slots.Length
        invariant forall s :: 0 <= s < slot && !slots[s].status.NotReady? ==> slots[s].block != block
      {
        if slots[slot].block == block && !slots[slot].status.NotReady? {
          return;
        }
        slot := slot + 1;
      }
      slot := -1;
    }

    method PickSlot() returns (targ: int)
      requires Valid()
      modifies this`overwritten, this`disk, this`faults
      ensures Valid() && -1 <= targ < slots.Length && faults >= old(faults)
      ensures targ != -1 <==> faults == old(faults)
      ensures targ != -1 && slots[targ].status.Dirty? ==>
                slots[targ].block < |disk| == |contents| && disk[slots[targ].block] == contents[slots[targ].block]
    {
      targ := 0;
      while targ < slots.Length && !slots[targ].status.NotReady?
        invariant 0 <= targ <= slots.Length
      {
        targ := targ + 1;
      }
      if targ == slots.Length {
        if overwritten == MAX_CACHED_BLOCKS {
          overwritten := 0;
        }
        targ := overwritten;
        overwritten := overwritten + 1;
        if slots[targ].status.Dirty? {
          Flushed(slots[..], disk, contents, targ);
          var ok := WriteSectors(slots[targ].block, slots[targ].cache);
          if !ok {
            targ := -1;
          }
        }
      }
    }

    // A miss: nothing visible changes, whether or not it succeeds.
    method CacheBlock(block: nat) returns (targ: int)
      requires Valid() && !Holds(slots[..], block)
      modifies this`overwritten, this`disk, this`faults, slots
      ensures Valid() && -1 <= targ < slots.Length && faults >= old(faults)
      ensures targ != -1 <==> faults == old(faults)
      ensures targ != -1 ==> slots[targ].block == block && !slots[targ].status.NotReady?
    {
      targ := PickSlot();
      if targ == -1 {
        return;
      }
      var ok, buf := ReadSectors(block);
      if !ok {
        return -1;
      }
      Loaded(slots[..], disk, contents, targ, block);
      ghost var before := slots[..];
      slots[targ] := Slot(block, Ready, buf);
      assert slots[..] == before[targ := Slot(block, Ready, buf)];
    }

    method EnsureCached(block: nat) returns (slot: int)
      requires Valid()
      modifies this`overwritten, this`disk, this`faults, slots
      ensures Valid() && -1 <= slot < slots.Length && faults >= old(faults)
      ensures slot != -1 <==> faults == old(faults)
      ensures slot != -1 ==> block < |contents| && slots[slot].block == block && !slots[slot].status.NotReady?
      ensures slot != -1 ==> slots[slot].cache == contents[block] && Blocky(contents, BYTES_PER_BLOCK)
    {
      slot := FindBlock(block);
      if slot == -1 {
        slot := CacheBlock(block);
      }
    }

    // Reading returns what is visible, or fails with a transfer, and changes nothing visible.
    method Read(loc: nat, count: nat) returns (ok: bool, buf: seq<byte>)
      requires Valid()
      modifies this`overwritten, this`disk, this`faults, slots
      ensures Valid() && faults >= old(faults) && (ok <==> faults == old(faults))
      ensures ok ==> |buf| == count && (count > 0 ==> loc + count <= |Visible()| && buf == Visible()[loc..loc + count])
    {
      hide Coherent;
      buf := [];
      while |buf| < count
        invariant Valid() && |buf| <= count && faults == old(faults)
        invariant |buf| > 0 ==> loc + |buf| <= |Visible()| && buf == Visible()[loc..loc + |buf|]
        decreases count - |buf|
      {
        var block, offset := Locate(loc + |buf|, BYTES_PER_BLOCK);
        var slot := EnsureCached(block);
        if slot == -1 {
          return false, buf;
        }
        var chunk := if count - |buf| > BYTES_PER_BLOCK - offset then BYTES_PER_BLOCK - offset else count - |buf|;
        ChunkSlice(contents, loc + |buf|, block, offset, chunk, BYTES_PER_BLOCK);
        ReadMore(Visible(), loc, buf, slots[slot].cache[offset..offset + chunk]);
        buf := buf + slots[slot].cache[offset..offset + chunk];
      }
      ok := true;
    }

    // Copy into a cached block.
    method StoreInto(slot: nat, offset: nat, w: seq<byte>)
      requires Valid() && slot < slots.Length && !slots[slot].status.NotReady? && offset + |w| <= BYTES_PER_BLOCK
      modifies this`contents, slots
      ensures Valid()
      ensures old(slots[slot].block) < |old(contents)| && |old(contents)[old(slots[slot].block)]| == BYTES_PER_BLOCK
      ensures contents == old(contents)[old(slots[slot].block) := Splice(old(contents)[old(slots[slot].block)], offset, w)]
    {
      ghost var before := slots[..];
      var v := Splice(slots[slot].cache, offset, w);
      Stored(before, disk, contents, slot, v);
      var block := slots[slot].block;
      slots[slot] := Slot(block, Dirty, v);
      contents := contents[block := v];
      assert slots[..] == before[slot := Slot(block, Dirty, v)];
    }

    // One turn of the write loop: at most the rest of one block.
    method WriteChunk(pos: nat, buf: seq<byte>) returns (done: nat)
      requires Valid() && buf != []
      modifies this`overwritten, this`disk, this`faults, this`contents, slots
      ensures Valid() && done <= |buf| && faults >= old(faults) && (done > 0 <==> faults == old(faults))
      ensures done > 0 ==> pos + done <= |old(Visible())|
      ensures Visible() == Overlaid(old(Visible()), pos, buf[..done])
    {
      hide Coherent;
      var block, offset := Locate(pos, BYTES_PER_BLOCK);
      var slot := EnsureCached(block);
      if slot == -1 {
        return 0;
      }
      done := if |buf| > BYTES_PER_BLOCK - offset then BYTES_PER_BLOCK - offset else |buf|;
      ChunkSplice(contents, pos, block, offset, buf[..done], BYTES_PER_BLOCK);
      StoreInto(slot, offset, buf[..done]);
    }

    // Writing lays the bytes over what is visible; if a transfer fails, `progress` bytes only.
    method Write(loc: nat, buf: seq<byte>) returns (ok: bool, progress: nat)
      requires Valid()
      modifies this`overwritten, this`disk, this`faults, this`contents, slots
      ensures Valid() && progress <= |buf| && (ok <==> progress == |buf|)
      ensures faults >= old(faults) && (ok <==> faults == old(faults))
      ensures progress > 0 ==> loc + progress <= |old(Visible())|
      ensures |Visible()| == |old(Visible())|
      ensures forall k :: 0 <= k < progress ==> Visible()[loc + k] == buf[k]
      ensures forall p :: 0 <= p < |Visible()| && !(loc <= p < loc + progress) ==> Visible()[p] == old(Visible())[p]
      ensures Visible() == Overlaid(old(Visible()), loc, buf[..progress])
    {
      hide Coherent, Overlaid;
      progress := 0;
      OverlaidNothing(Visible(), loc, buf[..0]);
      while progress < |buf|
        invariant Valid() && progress <= |buf| && faults == old(faults)
        invariant progress > 0 ==> loc + progress <= |old(Visible())|
        invariant Visible() == Overlaid(old(Visible()), loc, buf[..progress])
        decreases |buf| - progress
      {
        OverlaidLength(old(Visible()), loc, buf[..progress]);
        var done := WriteChunk(loc + progress, buf[progress..]);
        if done == 0 {
          OverlaidNothing(Overlaid(old(Visible()), loc, buf[..progress]), loc + progress, buf[progress..][..0]);
          OverlaidBytes(old(Visible()), loc, buf, progress);
          return false, progress;
        }
        OverlaidMore(old(Visible()), loc, buf[..progress], buf[progress..][..done]);
        assert buf[..progress] + buf[progress..][..done] == buf[..progress + done];
        progress := progress + done;
      }
      OverlaidBytes(old(Visible()), loc, buf, progress);
      ok := true;
    }

    // A flush that succeeds leaves the disk showing exactly what was visible.
    method Flush() returns (ok: bool)
      requires Valid()
      modifies this`disk, this`faults, slots
      ensures Valid() && faults >= old(faults) && (ok <==> faults == old(faults))
      ensures ok ==> disk == contents && forall s :: 0 <= s < slots.Length ==> !slots[s].status.Dirty?
    {
      var i := 0;
      while i < slots.Length
        invariant i <= slots.Length && Valid() && faults == old(faults)
        invariant forall s :: 0 <= s < i ==> !slots[s].status.Dirty?
      {
        if slots[i].status.Dirty? {
          ghost var before := slots[..];
          Flushed(before, disk, contents, i);
          ok := WriteSectors(slots[i].block, slots[i].cache);
          if !ok {
            return;
          }
          Cleaned(before, disk, contents, i);
          slots[i] := slots[i].(status := Ready);
          assert slots[..] == before[i := before[i].(status := Ready)];
        }
        i := i + 1;
      }
      CleanIsDisk(slots[..], disk, contents);
      ok := true;
    }

    method Do(op: Op) returns (out: Outcome)
      requires Valid()
      modifies this, slots
      ensures Valid() && slots == old(slots)
      ensures Step(old(Visible()), op, out, Visible(), disk == contents)
    {
      var before := faults;
      match op
      case ReadOp(loc, count) =>
        var ok, buf := Read(loc, count);
        out := Outcome(ok, buf, 0, faults - before);
      case WriteOp(loc, buf) =>
        var ok, progress := Write(loc, buf);
        out := Outcome(ok, [], progress, faults - before);
      case FlushOp =>
        var ok := Flush();
        out := Outcome(ok, [], 0, faults - before);
    }

    // Any history of operations is a history of the raw disk.
    method DoAll(ops: seq<Op>) returns (outs: seq<Outcome>)
      requires Valid()
      modifies this, slots
      ensures Valid() && |outs| == |ops|
      ensures History(old(Visible()), ops, outs)
      ensures Visible() == Raw(old(Visible()), ops, outs)
      ensures ops != [] && ops[|ops| - 1].FlushOp? && outs[|ops| - 1].ok ==> Flat(disk) == Raw(old(Visible()), ops, outs)
    {
      outs := [];
      assert ops[..0] == [];
      while |outs| < |ops|
        invariant Valid() && slots == old(slots) && |outs| <= |ops|
        invariant History(old(Visible()), ops[..|outs|], outs)
        invariant Visible() == Raw(old(Visible()), ops[..|outs|], outs)
        invariant |outs| > 0 && ops[|outs| - 1].FlushOp? && outs[|outs| - 1].ok ==> disk == contents
      {
        ghost var before := Visible();
        ghost var op := ops[|outs|];
        var out := Do(ops[|outs|]);
        HistorySnoc(old(Visible()), ops[..|outs|], outs, op, out, Visible());
        assert ops[..|outs|] + [op] == ops[..|outs| + 1];
        outs := outs + [out];
      }
      assert ops[..|outs|] == ops;
    }
  }

  // `w` laid over `s` at `at`, if it fits.
  function Overlaid(s: seq<byte>, at: nat, w: seq<byte>): seq<byte> {
    if w == [] || at + |w| > |s| then s else Splice(s, at, w)
  }

  lemma OverlaidNothing(s: seq<byte>, at: nat, w: seq<byte>)
    requires |w| == 0
    ensures Overlaid(s, at, w) == s
  {
  }

  lemma OverlaidLength(s: seq<byte>, at: nat, w: seq<byte>)
    ensures |Overlaid(s, at, w)| == |s|
  {
  }

  // Byte by byte.
  lemma OverlaidBytes(s: seq<byte>, at: nat, w: seq<byte>, n: nat)
    requires n <= |w| && (n > 0 ==> at + n <= |s|)
    ensures var r := Overlaid(s, at, w[..n]);
            && |r| == |s| && (forall k :: 0 <= k < n ==> r[at + k] == w[k])
            && forall p :: 0 <= p < |s| && !(at <= p < at + n) ==> r[p] == s[p]
  {
  }

  lemma OverlaidMore(s: seq<byte>, at: nat, w: seq<byte>, v: seq<byte>)
    requires at + |w| + |v| <= |s| && v != []
    ensures Overlaid(Overlaid(s, at, w), at + |w|, v) == Overlaid(s, at, w + v)
  {
    var l, r := Overlaid(Overlaid(s, at, w), at + |w|, v), Overlaid(s, at, w + v);
    assert |l| == |r|;
    forall p | 0 <= p < |l|
      ensures l[p] == r[p]
    {
    }
  }

  // ---------- the raw disk ----------

  datatype Op = ReadOp(loc: nat, count: nat) | WriteOp(loc: nat, buf: seq<byte>) | FlushOp

  // `faults` is how many transfers failed during the operation.
  datatype Outcome = Outcome(ok: bool, bytes: seq<byte>, progress: nat, faults: nat)

  // What an operation does to a disk without a cache.
  function RawStep(disk: seq<byte>, op: Op, out: Outcome): seq<byte> {
    match op
    case WriteOp(loc, buf) =>
      if out.progress <= |buf| then Overlaid(disk, loc, buf[..out.progress]) else disk
    case _ => disk
  }

  // What the outcome of an operation says, when the disk shows `disk` before it.  It fails exactly
  // when a transfer did.
  ghost predicate Explained(disk: seq<byte>, op: Op, out: Outcome) {
    && (out.ok <==> out.faults == 0)
    && match op
       case ReadOp(loc, count) =>
         out.ok ==> |out.bytes| == count && (count > 0 ==> loc + count <= |disk| && out.bytes == disk[loc..loc + count])
       case WriteOp(loc, buf) =>
         && out.progress <= |buf| && (out.ok <==> out.progress == |buf|)
         && (out.progress > 0 ==> loc + out.progress <= |disk|)
       case FlushOp => true
  }

  ghost predicate Step(x: seq<byte>, op: Op, out: Outcome, y: seq<byte>, settled: bool) {
    Explained(x, op, out) && y == RawStep(x, op, out) && (op.FlushOp? && out.ok ==> settled)
  }

  // The raw disk after a history.
  function Raw(disk: seq<byte>, ops: seq<Op>, outs: seq<Outcome>): seq<byte>
    requires |ops| == |outs|
    decreases |ops|
  {
    if ops == [] then disk else Raw(RawStep(disk, ops[0], outs[0]), ops[1..], outs[1..])
  }

  // Every outcome of a history is what the raw disk would answer.
  ghost predicate History(disk: seq<byte>, ops: seq<Op>, outs: seq<Outcome>)
    requires |ops| == |outs|
    decreases |ops|
  {
    ops == [] || (Explained(disk, ops[0], outs[0]) && History(RawStep(disk, ops[0], outs[0]), ops[1..], outs[1..]))
  }

  lemma {:induction false} HistorySnoc(disk: seq<byte>, ops: seq<Op>, outs: seq<Outcome>, op: Op, out: Outcome, y: seq<byte>)
    requires |ops| == |outs| && History(disk, ops, outs)
    requires Explained(Raw(disk, ops, outs), op, out) && y == RawStep(Raw(disk, ops, outs), op, out)
    ensures History(disk, ops + [op], outs + [out]) && Raw(disk, ops + [op], outs + [out]) == y
    decreases |ops|
  {
    if ops == [] {
      assert (ops + [op])[1..] == [] && (outs + [out])[1..] == [];
    } else {
      HistorySnoc(RawStep(disk, ops[0], outs[0]), ops[1..], outs[1..], op, out, y);
      assert (ops + [op])[1..] == ops[1..] + [op] && (outs + [out])[1..] == outs[1..] + [out];
    }
  }

  // ---------- what a raw disk is ----------

  // Operation `i` of a history wrote byte `p`.
  predicate Wrote(op: Op, out: Outcome, p: nat) {
    op.WriteOp? && op.loc <= p < op.loc + out.progress && p - op.loc < |op.buf|
  }

  lemma RawAt(disk: seq<byte>, op: Op, out: Outcome)
    requires Explained(disk, op, out)
    ensures |RawStep(disk, op, out)| == |disk|
    ensures forall p :: 0 <= p < |disk| ==>
              RawStep(disk, op, out)[p] == if Wrote(op, out, p) then op.buf[p - op.loc] else disk[p]
    ensures forall p: nat :: Wrote(op, out, p) ==> p < |disk|
  {
    if op.WriteOp? {
      OverlaidBytes(disk, op.loc, op.buf, out.progress);
    }
  }

  // The disk before operation `n` of a history: an untouched byte is as it was at the start.
  lemma {:induction false} UnwrittenByte(disk: seq<byte>, ops: seq<Op>, outs: seq<Outcome>, p: nat)
    requires |ops| == |outs| && History(disk, ops, outs) && p < |disk|
    requires forall i :: 0 <= i < |ops| ==> !Wrote(ops[i], outs[i], p)
    ensures |Raw(disk, ops, outs)| == |disk| && Raw(disk, ops, outs)[p] == disk[p]
    decreases |ops|
  {
    hide Explained, RawStep, Wrote;
    if ops != [] {
      RawAt(disk, ops[0], outs[0]);
      UnwrittenByte(RawStep(disk, ops[0], outs[0]), ops[1..], outs[1..], p);
    }
  }

  // A byte is what the last write over it put there.
  lemma {:induction false} WrittenByte(disk: seq<byte>, ops: seq<Op>, outs: seq<Outcome>, m: nat, p: nat)
    requires |ops| == |outs| && History(disk, ops, outs) && m < |ops| && Wrote(ops[m], outs[m], p)
    requires forall i :: m < i < |ops| ==> !Wrote(ops[i], outs[i], p)
    ensures p < |disk| == |Raw(disk, ops, outs)| && Raw(disk, ops, outs)[p] == ops[m].buf[p - ops[m].loc]
    decreases |ops|
  {
    hide Explained, RawStep, Wrote;
    RawAt(disk, ops[0], outs[0]);
    var next := RawStep(disk, ops[0], outs[0]);
    if m == 0 {
      UnwrittenByte(next, ops[1..], outs[1..], p);
      assert Wrote(ops[0], outs[0], p);
      WroteIs(ops[0], outs[0], p);
    } else {
      WrittenByte(next, ops[1..], outs[1..], m - 1, p);
    }
  }

  lemma WroteIs(op: Op, out: Outcome, p: nat)
    ensures Wrote(op, out, p) ==> op.WriteOp? && op.loc <= p && p - op.loc < |op.buf|
  {
  }

  lemma {:induction false} HistoryPrefix(disk: seq<byte>, ops: seq<Op>, outs: seq<Outcome>, n: nat)
    requires |ops| == |outs| && History(disk, ops, outs) && n < |ops|
    ensures History(disk, ops[..n], outs[..n]) && Explained(Raw(disk, ops[..n], outs[..n]), ops[n], outs[n])
    decreases |ops|
  {
    hide Explained, RawStep;
    if n > 0 {
      HistoryPrefix(RawStep(disk, ops[0], outs[0]), ops[1..], outs[1..], n - 1);
      assert ops[..n][1..] == ops[1..][..n - 1] && outs[..n][1..] == outs[1..][..n - 1];
    }
  }

  // In every history a read that succeeds returns, byte for byte, what the last write over each byte
  // put there.
  lemma ReadsReturnLastWritten(disk: seq<byte>, ops: seq<Op>, outs: seq<Outcome>, m: nat, n: nat, k: nat)
    requires |ops| == |outs| && History(disk, ops, outs) && m < n < |ops|
    requires ops[n].ReadOp? && outs[n].ok && k < ops[n].count
    requires ops[m].WriteOp? && ops[m].loc <= ops[n].loc + k < ops[m].loc + outs[m].progress
    requires forall i :: m < i < n && ops[i].WriteOp? ==> !(ops[i].loc <= ops[n].loc + k < ops[i].loc + outs[i].progress)
    ensures |outs[n].bytes| == ops[n].count && ops[n].loc + k - ops[m].loc < |ops[m].buf|
    ensures outs[n].bytes[k] == ops[m].buf[ops[n].loc + k - ops[m].loc]
  {
    hide History, Raw;
    HistoryPrefix(disk, ops, outs, m);
    HistoryPrefix(disk, ops, outs, n);
    WrittenByte(disk, ops[..n], outs[..n], m, ops[n].loc + k);
  }

  // Or what the disk held at first, if nothing wrote it.
  lemma ReadsReturnFirstContents(disk: seq<byte>, ops: seq<Op>, outs: seq<Outcome>, n: nat, k: nat)
    requires |ops| == |outs| && History(disk, ops, outs) && n < |ops|
    requires ops[n].ReadOp? && outs[n].ok && k < ops[n].count
    requires forall i :: 0 <= i < n && ops[i].WriteOp? ==> !(ops[i].loc <= ops[n].loc + k < ops[i].loc + outs[i].progress)
    ensures |outs[n].bytes| == ops[n].count && ops[n].loc + k < |disk| && outs[n].bytes[k] == disk[ops[n].loc + k]
  {
    hide History, Raw;
    HistoryPrefix(disk, ops, outs, n);
    RawLength(disk, ops[..n], outs[..n]);
    UnwrittenByte(disk, ops[..n], outs[..n], ops[n].loc + k);
  }

  lemma {:induction false} RawLength(disk: seq<byte>, ops: seq<Op>, outs: seq<Outcome>)
    requires |ops| == |outs| && History(disk, ops, outs)
    ensures |Raw(disk, ops, outs)| == |disk|
    decreases |ops|
  {
    hide Explained, RawStep;
    if ops != [] {
      RawAt(disk, ops[0], outs[0]);
      RawLength(RawStep(disk, ops[0], outs[0]), ops[1..], outs[1..]);
    }
  }

  // A write that succeeds has written all its bytes.
  lemma SuccessIsComplete(disk: seq<byte>, ops: seq<Op>, outs: seq<Outcome>, n: nat)
    requires |ops| == |outs| && History(disk, ops, outs) && n < |ops| && ops[n].WriteOp?
    ensures outs[n].ok <==> outs[n].progress == |ops[n].buf|
    ensures outs[n].ok <==> outs[n].faults == 0
  {
    hide History, Raw;
    HistoryPrefix(disk, ops, outs, n);
  }
}

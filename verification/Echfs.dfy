// The echfs driver on one mount: growing, caching, reading, writing, erasing and
// synchronising the regular files, each a byte array of its own.

module Echfs {
  import opened Bytes
  import opened EchfsModel
  import opened EchfsSpec

  class Mount {
    const size: nat       // bytes per block
    const dataStart: nat  // first block that files may use
    var fat: seq<nat>
    var data: seq<Block>
    var files: seq<File>
    var handles: map<int, Handle>
    var refusals: nat     // allocations of a block buffer that have failed so far
    ghost var chains: seq<seq<nat>>
    ghost var contents: seq<seq<Block>>

    ghost function St(): Store
      reads this
    {
      Store(fat, data, files, chains, contents)
    }

    ghost predicate Valid()
      reads this
    {
      StoreOk(St(), size, dataStart) && HandlesOk(St(), handles)
    }

    // A freshly formatted device of `blocks` blocks, the first `reserved` of them not for files.
    constructor Formatted(bytesPerBlock: nat, blocks: nat, reserved: nat)
      requires 0 < bytesPerBlock && 0 < reserved <= blocks < RESERVED_BLOCK
      ensures Valid() && size == bytesPerBlock && dataStart == reserved && files == [] && handles == map[]
      ensures |Free(fat)| + TotalLength(chains) == blocks - reserved
    {
      size, dataStart := bytesPerBlock, reserved;
      fat := seq(blocks, i => if i < reserved then RESERVED_BLOCK else 0);
      data := seq(blocks, _ => seq(bytesPerBlock, _ => 0));
      files, handles, refusals := [], map[], 0;
      chains, contents := [], [];
      new;
      FreeCount(fat, reserved);
    }

    // First free FAT entry, taken as the end of a chain; the previous last block links to it.
    method AllocateEmptyBlock(prev: nat) returns (i: nat)
      requires prev < |fat| && Free(fat) != {}
      modifies this`fat
      ensures |fat| == |old(fat)| && i < |fat| && old(fat)[i] == 0
      ensures forall j :: 0 <= j < i ==> old(fat)[j] != 0
      ensures fat == Linked(old(fat), i, prev)
    {
      ghost var w :| w in Free(fat);
      i := 0;
      while fat[i] != 0
        invariant i <= w < |fat|
        invariant forall j :: 0 <= j < i ==> fat[j] != 0
        decreases |fat| - i
      {
        i := i + 1;
      }
      fat := fat[i := END_OF_CHAIN];
      if prev != 0 {
        fat := fat[prev := i];
      }
    }

    // One more block at the end of file `f`.
    method GrowOne(f: nat)
      requires Valid() && f < |files| && files[f].cached && Free(fat) != {}
      modifies this`fat, this`files, this`chains, this`contents
      ensures Valid() && Grew(old(St()), St(), f)
      ensures |chains[f]| == |old(chains)[f]| + 1
      ensures files[f].slots == old(files)[f].slots && files[f].overwritten == old(files)[f].overwritten
    {
      hide StoreOk;
      ghost var st := St();
      FileFacts(St(), f, size, dataStart);
      ChainInRange(st, f, size, dataStart);
      var file := files[f];
      var nb;
      if |file.allocMap| == 0 {
        nb := AllocateEmptyBlock(0);
        file := file.(target := file.target.(payload := nb), changedEntry := true);
      } else {
        nb := AllocateEmptyBlock(file.allocMap[|file.allocMap| - 1]);
      }
      files := files[f := file.(allocMap := file.allocMap + [nb])];
      chains := chains[f := chains[f] + [nb]];
      contents := contents[f := contents[f] + [data[nb]]];
      GrowStore(st, f, nb, size, dataStart);
      assert St() == Grown(st, f, nb);
    }

    // The slot that holds a block, or -1.
    method FindBlock(f: nat, block: nat) returns (slot: int)
      requires f < |files|
      ensures -1 <= slot < |files[f].slots|
      ensures slot != -1 ==> files[f].slots[slot].block == block && !files[f].slots[slot].status.NotReady?
      ensures slot == -1 ==>
                forall s :: 0 <= s < |files[f].slots| && !files[f].slots[s].status.NotReady? ==>
                  files[f].slots[s].block != block
    {
      slot := 0;
      while slot < |files[f].slots|
        invariant 0 <= slot <= |files[f].slots|
        invariant forall s :: 0 <= s < slot && !files[f].slots[s].status.NotReady? ==>
                    files[f].slots[s].block != block
      {
        if files[f].slots[slot].block == block && !files[f].slots[slot].status.NotReady? {
          return;
        }
        slot := slot + 1;
      }
      slot := -1;
    }

    // Bring a block that no slot holds into a slot: a free one if memory allows, else the next
    // one round robin, written back first if dirty.  Growing the file if the block is past its end.
    method CacheBlock(f: nat, block: nat) returns (targ: int)
      requires Valid() && f < |files| && files[f].cached
      requires forall s :: 0 <= s < |files[f].slots| && !files[f].slots[s].status.NotReady? ==>
                 files[f].slots[s].block != block
      requires block + 1 <= |chains[f]| + |Free(fat)|
      modifies this`fat, this`data, this`files, this`chains, this`contents, this`refusals
      ensures Valid() && Grew(old(St()), St(), f)
      ensures -1 <= targ < |files[f].slots|
      ensures targ == -1 ==> St() == old(St())
      ensures refusals == if targ == -1 then old(refusals) + 1 else old(refusals)
      ensures targ != -1 ==> files[f].slots[targ].block == block && !files[f].slots[targ].status.NotReady?
      ensures targ != -1 ==> |contents[f]| == Max(|old(contents)[f]|, block + 1)
    {
      hide StoreOk, Reusable;
      targ := PickSlot(f);
      if targ == -1 {
        return;
      }
      ghost var st1 := St();
      GrowTo(f, block, targ);
      GrewTransitive(old(St()), st1, St(), f);
      ghost var st2 := St();
      LoadBlock(f, block, targ);
      GrewTransitive(old(St()), st2, St(), f);
    }

    // A slot to load into: an empty one if memory allows, else the round-robin victim.
    method PickSlot(f: nat) returns (targ: int)
      requires Valid() && f < |files| && files[f].cached
      modifies this`data, this`files, this`refusals
      ensures Valid() && Grew(old(St()), St(), f)
      ensures -1 <= targ && (targ == -1 ==> St() == old(St()))
      ensures refusals == if targ == -1 then old(refusals) + 1 else old(refusals)
      ensures targ != -1 ==> Reusable(St(), f, targ)
      ensures f < |files| && files[f].slots == old(files)[f].slots && contents == old(contents)
    {
      hide StoreOk;
      FileFacts(St(), f, size, dataStart);
      GrewSame(St(), f, size, dataStart);
      hide CacheOk, Evicted;
      targ := EmptySlot(f);
      if targ < |files[f].slots| {
        var gotMemory: bool := *;
        if !gotMemory {
          targ, refusals := -1, refusals + 1;
        }
      } else {
        VictimFacts(St(), f, size, dataStart);
        EvictStore(St(), f, size, dataStart);
        targ := EvictSlot(f);
      }
    }

    // The first slot not in use, or the number of slots.
    method EmptySlot(f: nat) returns (targ: nat)
      requires f < |files|
      ensures targ <= |files[f].slots|
      ensures targ < |files[f].slots| ==> files[f].slots[targ].status.NotReady?
      ensures forall s :: 0 <= s < targ ==> !files[f].slots[s].status.NotReady?
    {
      targ := 0;
      while targ < |files[f].slots| && !files[f].slots[targ].status.NotReady?
        invariant targ <= |files[f].slots|
        invariant forall s :: 0 <= s < targ ==> !files[f].slots[s].status.NotReady?
      {
        targ := targ + 1;
      }
    }

    // Choose the slot to overwrite and write it back if it is dirty.
    method EvictSlot(f: nat) returns (targ: nat)
      requires f < |files| && f < |chains| && files[f].allocMap == chains[f]
      requires Victim(files[f]) < |files[f].slots|
      requires var slot := files[f].slots[Victim(files[f])];
               slot.status.Dirty? ==> slot.block < |chains[f]| && chains[f][slot.block] < |data|
      modifies this`data, this`files
      ensures targ == Victim(old(files)[f]) && St() == Evicted(old(St()), f)
    {
      var file := files[f];
      if file.overwritten == MAX_CACHED_BLOCKS {
        file := file.(overwritten := 0);
      }
      targ := file.overwritten;
      file := file.(overwritten := file.overwritten + 1);
      files := files[f := file];
      if file.slots[targ].status.Dirty? {
        data := data[file.allocMap[file.slots[targ].block] := file.slots[targ].cache];
      }
    }

    // Grow file `f` until it has block `block`; slot `targ` stays as clean as it was.
    method GrowTo(f: nat, block: nat, ghost targ: nat)
      requires Valid() && f < |files| && files[f].cached
      requires block + 1 <= |chains[f]| + |Free(fat)| && Reusable(St(), f, targ)
      modifies this`fat, this`files, this`chains, this`contents
      ensures Valid() && Grew(old(St()), St(), f) && Reusable(St(), f, targ)
      ensures files[f].slots == old(files)[f].slots
      ensures |contents[f]| == |chains[f]| == Max(|old(contents)[f]|, block + 1)
    {
      hide StoreOk;
      ghost var st := St();
      FileFacts(st, f, size, dataStart);
      GrewSame(st, f, size, dataStart);
      hide CacheOk, Reusable;
      while |files[f].allocMap| <= block
        invariant Valid() && Grew(st, St(), f) && data == old(data)
        invariant files[f].allocMap == chains[f] && |chains[f]| == |contents[f]|
        invariant files[f].slots == old(files)[f].slots
        invariant |contents[f]| <= Max(|old(contents)[f]|, block + 1)
        decreases block + 1 - |files[f].allocMap|
      {
        ghost var st1 := St();
        GrowOne(f);
        GrewTransitive(st, st1, St(), f);
        FileFacts(St(), f, size, dataStart);
      }
      ReusableGrown(st, St(), f, targ);
    }

    // Read the block from the device into the slot.
    method LoadBlock(f: nat, block: nat, targ: nat)
      requires Valid() && f < |files| && files[f].cached && Reusable(St(), f, targ) && block < |chains[f]|
      requires forall s :: 0 <= s < |files[f].slots| && !files[f].slots[s].status.NotReady? ==>
                 files[f].slots[s].block != block
      modifies this`files
      ensures Valid() && Grew(old(St()), St(), f)
      ensures targ < |files[f].slots|
      ensures files[f].slots[targ].block == block && !files[f].slots[targ].status.NotReady?
    {
      hide StoreOk;
      ghost var st := St();
      LoadStore(st, f, targ, block, size, dataStart);
      var file := files[f];
      file := file.(slots := file.slots[targ := Slot(block, Ready, data[file.allocMap[block]])]);
      files := files[f := file];
      assert St() == Loaded(st, f, targ, block);
    }

    // The slot of a block, brought in if no slot holds it; -1 if memory ran out.
    method EnsureCached(f: nat, block: nat) returns (slot: int)
      requires Valid() && f < |files| && files[f].cached
      requires block + 1 <= |chains[f]| + |Free(fat)|
      modifies this`fat, this`data, this`files, this`chains, this`contents, this`refusals
      ensures Valid() && Grew(old(St()), St(), f)
      ensures -1 <= slot < |files[f].slots|
      ensures slot == -1 ==> St() == old(St())
      ensures refusals == if slot == -1 then old(refusals) + 1 else old(refusals)
      ensures slot != -1 ==> !files[f].slots[slot].status.NotReady? && files[f].slots[slot].block == block
      ensures slot != -1 ==> block < |contents[f]| == Max(|old(contents)[f]|, block + 1)
      ensures slot != -1 ==> files[f].slots[slot].cache == contents[f][block]
      ensures Blocky(contents[f], size)
    {
      hide StoreOk;
      slot := FindBlock(f, block);
      FileFacts(St(), f, size, dataStart);
      if slot == -1 {
        slot := CacheBlock(f, block);
      }
      FileFacts(St(), f, size, dataStart);
    }

    // One turn of the read loop: at most the rest of one block.
    method ReadChunk(f: nat, pos: nat, want: nat) returns (bytes: seq<byte>)
      requires Valid() && f < |files| && files[f].cached && want > 0
      requires BlocksFor(pos + want, size) <= |chains[f]| + |Free(fat)|
      modifies this`fat, this`data, this`files, this`chains, this`contents, this`refusals
      ensures Valid() && |bytes| <= want
      ensures bytes == [] ==> St() == old(St())
      ensures refusals == if bytes == [] then old(refusals) + 1 else old(refusals)
      ensures ReadFile(old(St()), St(), f, pos, bytes, size)
      ensures |files| == |old(files)| && files[f].cached && f < |old(chains)| && f < |chains|
      ensures |Free(fat)| + |chains[f]| == |Free(old(fat))| + |old(chains)[f]|
    {
      hide StoreOk;
      var block, offset := Locate(pos, size);
      AtBound(pos, block, offset, pos + want, size);
      var slot := EnsureCached(f, block);
      if slot == -1 {
        return [];
      }
      var chunk := if want > size - offset then size - offset else want;
      SlotShows(St(), f, slot, size, dataStart);
      ReadChunkStore(old(St()), St(), f, slot, pos, offset, chunk, size);
      bytes := files[f].slots[slot].cache[offset..offset + chunk];
    }

    // Copy `w` into a slot in use, which becomes dirty.
    method WriteInto(f: nat, slot: nat, offset: nat, w: seq<byte>)
      requires Valid() && f < |files| && files[f].cached
      requires slot < |files[f].slots| && !files[f].slots[slot].status.NotReady? && offset + |w| <= size
      modifies this`files, this`contents
      ensures Valid()
      ensures |old(files)[f].slots[slot].cache| == size && old(files)[f].slots[slot].block < |old(contents)[f]|
      ensures St() == Written(old(St()), f, slot, offset, w)
    {
      hide StoreOk;
      ghost var st := St();
      StoreLengths(st, size, dataStart);
      WriteStore(st, f, slot, offset, w, size, dataStart);
      var file := files[f];
      var v := Splice(file.slots[slot].cache, offset, w);
      files := files[f := file.(slots := file.slots[slot := Slot(file.slots[slot].block, Dirty, v)],
                                changedCache := true)];
      contents := contents[f := contents[f][file.slots[slot].block := v]];
      assert St() == Written(st, f, slot, offset, w);
    }

    // One turn of the write loop.
    method WriteChunk(f: nat, pos: nat, buf: seq<byte>) returns (done: nat)
      requires Valid() && f < |files| && files[f].cached && buf != []
      requires BlocksFor(pos + |buf|, size) <= |chains[f]| + |Free(fat)|
      modifies this`fat, this`data, this`files, this`chains, this`contents, this`refusals
      ensures Valid() && done <= |buf|
      ensures done == 0 ==> St() == old(St())
      ensures refusals == if done == 0 then old(refusals) + 1 else old(refusals)
      ensures WroteFile(old(St()), St(), f, pos, buf[..done], size)
      ensures f < |old(chains)| && f < |chains|
      ensures |Free(fat)| + |chains[f]| == |Free(old(fat))| + |old(chains)[f]|
      ensures |files| == |old(files)| && files[f].target.size == old(files)[f].target.size && files[f].cached
    {
      hide StoreOk;
      var block, offset := Locate(pos, size);
      AtBound(pos, block, offset, pos + |buf|, size);
      var slot := EnsureCached(f, block);
      if slot == -1 {
        assert buf[..0] == [];
        return 0;
      }
      done := if |buf| > size - offset then size - offset else |buf|;
      SlotShows(St(), f, slot, size, dataStart);
      WriteChunkStore(old(St()), St(), f, slot, pos, offset, buf[..done], size);
      WriteInto(f, slot, offset, buf[..done]);
    }

    // The read loop.  It stops early, short of `count`, only when memory ran out.
    method ReadLoop(f: nat, pos: nat, count: nat) returns (buf: seq<byte>)
      requires Valid() && f < |files| && files[f].cached && Room(size, St(), f, pos + count)
      modifies this`fat, this`data, this`files, this`chains, this`contents, this`refusals
      ensures Valid() && |buf| <= count
      ensures refusals == if |buf| < count then old(refusals) + 1 else old(refusals)
      ensures ReadFile(old(St()), St(), f, pos, buf, size)
    {
      hide StoreOk;
      buf := [];
      ReadNothing(St(), f, pos, size, dataStart);
      hide ReadFile;
      while |buf| < count
        invariant Valid() && handles == old(handles) && |buf| <= count && refusals == old(refusals)
        invariant f < |files| && files[f].cached && Room(size, St(), f, pos + count)
        invariant ReadFile(old(St()), St(), f, pos, buf, size)
        decreases count - |buf|
      {
        ghost var st1 := St();
        var bytes := ReadChunk(f, pos + |buf|, count - |buf|);
        if bytes == [] {
          return;
        }
        ReadMore(old(St()), st1, St(), f, pos, buf, bytes, size);
        buf := buf + bytes;
      }
    }

    method Read(h: int, want: nat) returns (r: IoResult, buf: seq<byte>)
      requires Valid()
      requires CanRead(size, St(), handles, h, want)
      modifies this
      ensures Valid() && ReadStep(size, old(St()), old(handles), h, want, r, buf, St(), handles)
      ensures refusals == if r.Failed? && r.errno == EIO then old(refusals) + 1 else old(refusals)
    {
      hide StoreOk;
      buf := [];
      if h !in handles {
        return Failed(EBADF, 0), [];
      }
      var handle := handles[h];
      if handle.isDirectory {
        return Failed(EISDIR, 0), [];
      }
      var count := Clip(handle.ptr, handle.end, want);
      buf := ReadLoop(handle.file, handle.ptr, count);
      if |buf| < count {
        return Failed(EIO, |buf|), buf;
      }
      handles := handles[h := handle.(ptr := handle.ptr + count)];
      r := Done(count);
    }

    // The write loop.  It stops early only when memory ran out.
    method WriteLoop(f: nat, pos: nat, buf: seq<byte>) returns (progress: nat)
      requires Valid() && f < |files| && files[f].cached && Room(size, St(), f, pos + |buf|)
      modifies this`fat, this`data, this`files, this`chains, this`contents, this`refusals
      ensures Valid() && progress <= |buf|
      ensures refusals == if progress < |buf| then old(refusals) + 1 else old(refusals)
      ensures WroteFile(old(St()), St(), f, pos, buf[..progress], size)
      ensures |files| == |old(files)| && files[f].target.size == old(files)[f].target.size
      ensures files[f].cached
    {
      hide StoreOk, WroteFile;
      progress := 0;
      WroteNothing(St(), f, pos, size, dataStart);
      assert buf[..0] == [];
      while progress < |buf|
        invariant Valid() && handles == old(handles) && progress <= |buf| && refusals == old(refusals)
        invariant f < |files| && Room(size, St(), f, pos + |buf|)
        invariant WroteFile(old(St()), St(), f, pos, buf[..progress], size)
        invariant |files| == |old(files)| && files[f].target.size == old(files)[f].target.size && files[f].cached
        decreases |buf| - progress
      {
        ghost var st1 := St();
        var done := WriteChunk(f, pos + progress, buf[progress..]);
        if done == 0 {
          return;
        }
        WriteMore(old(St()), st1, St(), f, pos, buf[..progress], buf[progress..][..done], size);
        assert buf[..progress] + buf[progress..][..done] == buf[..progress + done];
        progress := progress + done;
      }
    }

    method Write(h: int, buf: seq<byte>) returns (r: IoResult)
      requires Valid()
      requires CanWrite(size, St(), handles, h, buf)
      modifies this
      ensures Valid() && WriteStep(size, old(St()), old(handles), h, buf, r, St(), handles)
      ensures refusals == if r.Failed? && r.errno == EIO then old(refusals) + 1 else old(refusals)
    {
      hide StoreOk;
      if h !in handles {
        return Failed(EBADF, 0);
      }
      if handles[h].isDirectory {
        return Failed(EISDIR, 0);
      }
      r := WriteFileHandle(h, buf);
    }

    method WriteFileHandle(h: int, buf: seq<byte>) returns (r: IoResult)
      requires Valid() && h in handles && !handles[h].isDirectory
      requires Room(size, St(), handles[h].file, StartOf(handles[h]) + |buf|)
      modifies this
      ensures Valid() && WriteStep(size, old(St()), old(handles), h, buf, r, St(), handles)
      ensures refusals == if r.Failed? && r.errno == EIO then old(refusals) + 1 else old(refusals)
    {
      hide StoreOk, WriteStep, WroteFile, SizeUpdated, Moved;
      StoreLengths(St(), size, dataStart);
      ghost var s, hs := St(), handles;
      var handle := handles[h];
      if handle.append {
        handle := handle.(ptr := handle.end);
      }
      handles := handles[h := handle];
      var progress := WriteLoop(handle.file, handle.ptr, buf);
      StoreLengths(St(), size, dataStart);
      if progress < |buf| {
        WriteStepFailed(size, s, hs, h, buf, progress, St(), handles);
        return Failed(EIO, progress);
      }
      assert buf[..progress] == buf;
      WriteStepDone(size, s, hs, h, buf, St());
      FinishWrite(h, handle, |buf|);
      assert handles == hs[h := Moved(handle, |buf|)];
      r := Done(|buf|);
    }

    // Move the handle past what was written, and the file's size if that is past its end.
    method FinishWrite(h: int, handle: Handle, n: nat)
      requires Valid() && handle.file < |files| && files[handle.file].cached && !handle.isDirectory
      modifies this`files, this`handles
      ensures Valid()
      ensures St() == SizeUpdated(old(St()), handle, n)
      ensures handles == old(handles)[h := Moved(handle, n)]
    {
      hide StoreOk;
      var moved := handle.(ptr := handle.ptr + n);
      if moved.ptr > moved.end {
        moved := moved.(end := moved.ptr);
        SetSize(moved.file, moved.ptr);
      }
      HandlesKept(St(), handles, St(), h, moved);
      handles := handles[h := moved];
    }

    method SetSize(f: nat, n: nat)
      requires Valid() && f < |files| && files[f].cached
      modifies this`files
      ensures Valid() && St() == Resized(old(St()), f, n)
    {
      hide StoreOk;
      ResizeStore(St(), f, n, size, dataStart);
      files := files[f := files[f].(target := files[f].target.(size := n), changedEntry := true)];
    }

    // Walk a chain in the FAT and zero its entries.
    method FreeChain(first: nat, ghost c: seq<nat>)
      requires IsChain(fat, first, c) && |fat| < RESERVED_BLOCK
      modifies this`fat
      ensures forall k :: 0 <= k < |c| ==> c[k] < |old(fat)|
      ensures fat == Zeroed(old(fat), c, |c|)
    {
      ChainDistinct(fat, first, c);
      ghost var fat0, n := fat, 0;
      var block := first;
      if block != END_OF_CHAIN {
        while true
          invariant n < |c| && block == c[n]
          invariant fat == Zeroed(fat0, c, n)
          decreases |c| - n
        {
          ZeroedAt(fat0, c, n, c[n]);
          var entry := block;
          block := fat[entry];
          fat := fat[entry := 0];
          n := n + 1;
          if block == END_OF_CHAIN {
            break;
          }
        }
      }
    }

    static method DropSlots(slots: seq<Slot>) returns (r: seq<Slot>)
      ensures r == Emptied(slots)
    {
      r := slots;
      var i := 0;
      while i < |slots|
        invariant 0 <= i <= |slots| == |r|
        invariant forall k :: 0 <= k < i ==> r[k] == slots[k].(status := NotReady)
        invariant forall k :: i <= k < |slots| ==> r[k] == slots[k]
      {
        if !r[i].status.NotReady? {
          r := r[i := r[i].(status := NotReady)];
        }
        i := i + 1;
      }
    }

    // Free a file's chain on the device and drop its cache.
    method Erase(f: nat)
      requires Valid() && f < |files| && files[f].cached
      modifies this`fat, this`files, this`chains, this`contents
      ensures Valid()
      ensures |files| == |old(files)| && forall k :: 0 <= k < |old(chains)[f]| ==> old(chains)[f][k] < |old(fat)|
      ensures St() == Erased(old(St()), f)
    {
      hide StoreOk, CacheOk, Emptied, IsChain, Zeroed, Blocky;
      ghost var st := St();
      EraseStore(st, f, size, dataStart);
      FileFacts(St(), f, size, dataStart);
      FreeChain(files[f].target.payload, chains[f]);
      var slots := DropSlots(files[f].slots);
      files := files[f := files[f].(target := Entry(END_OF_CHAIN, 0), allocMap := [], slots := slots,
                                    changedEntry := true, changedCache := false)];
      chains := chains[f := []];
      contents := contents[f := []];
      assert St() == Erased(st, f);
    }

    // Write a file's dirty blocks back to the device.
    method FlushDirty(f: nat)
      requires Valid() && f < |files| && files[f].cached
      modifies this`data, this`files
      ensures Valid() && Grew(old(St()), St(), f)
      ensures contents == old(contents) && chains == old(chains) && fat == old(fat)
      ensures files[f].target == old(files)[f].target && files[f].onDisk == old(files)[f].onDisk
      ensures forall k :: 0 <= k < |files[f].slots| ==> !files[f].slots[k].status.Dirty?
    {
      hide StoreOk;
      GrewSame(St(), f, size, dataStart);
      var i := 0;
      while i < |files[f].slots|
        invariant f < |files| && i <= |files[f].slots|
        invariant Valid() && Grew(old(St()), St(), f) && files[f].cached
        invariant contents == old(contents) && chains == old(chains) && fat == old(fat)
        invariant files[f].target == old(files)[f].target && files[f].onDisk == old(files)[f].onDisk
        invariant forall k :: 0 <= k < i ==> !files[f].slots[k].status.Dirty?
        decreases |files[f].slots| - i
      {
        if files[f].slots[i].status.Dirty? {
          ghost var st1 := St();
          FlushAndClean(f, i);
          GrewTransitive(old(St()), st1, St(), f);
        }
        i := i + 1;
      }
    }

    // Write a file's entry and dirty blocks back to the device.
    method SynchroniseCachedFile(f: nat)
      requires Valid() && f < |files| && files[f].cached
      modifies this`data, this`files
      ensures Valid() && Grew(old(St()), St(), f) && OnDevice(St(), f)
      ensures contents == old(contents) && chains == old(chains) && fat == old(fat)
      ensures files[f].target == old(files)[f].target && Settled(files[f])
    {
      hide StoreOk;
      ghost var st := St();
      FileFacts(St(), f, size, dataStart);
      if files[f].changedEntry {
        var file := files[f].(onDisk := files[f].target, changedEntry := false);
        files := files[f := file];
        RecacheStore(st, f, file, size, dataStart);
      }
      ghost var st1 := St();
      FileFacts(St(), f, size, dataStart);
      if files[f].changedCache {
        FlushDirty(f);
        GrewTransitive(st, st1, St(), f);
        ghost var st2 := St();
        MarkSynchronised(f);
        GrewTransitive(st, st2, St(), f);
      }
      SyncedOnDevice(St(), f, size, dataStart);
    }

    // Synchronise every cached file: afterwards a fresh mount of the device shows the same contents.
    // `dumped` tells whether the table of cached files could be listed.  If it could not, nothing is
    // written, and the promise holds only where no file is cached.
    method Sync(dumped: bool)
      requires Valid()
      modifies this`data, this`files
      ensures Valid() && contents == old(contents) && chains == old(chains) && fat == old(fat)
      ensures !dumped ==> St() == old(St())
      ensures dumped || (forall f :: 0 <= f < |files| ==> !files[f].cached) ==>
                StoreOk(Remounted(St()), size, dataStart) && forall f :: 0 <= f < |files| ==> OnDevice(St(), f)
    {
      hide StoreOk, CacheOk, OnDevice, Settled;
      StoreLengths(St(), size, dataStart);
      if dumped {
        SyncAll();
      } else if forall f :: 0 <= f < |files| ==> !files[f].cached {
        forall f | 0 <= f < |files|
          ensures OnDevice(St(), f)
        {
          UncachedSettled(St(), f, size, dataStart);
          SyncedOnDevice(St(), f, size, dataStart);
        }
        RemountKeepsContents(St(), size, dataStart);
      }
    }

    method SyncAll()
      requires Valid()
      modifies this`data, this`files
      ensures Valid() && StoreOk(Remounted(St()), size, dataStart)
      ensures contents == old(contents) && chains == old(chains) && fat == old(fat)
      ensures forall f :: 0 <= f < |files| ==> OnDevice(St(), f)
    {
      hide StoreOk, CacheOk, OnDevice, Settled;
      StoreLengths(St(), size, dataStart);
      var i := 0;
      while i < |files|
        invariant i <= |files| == |chains| == |contents| && Valid()
        invariant contents == old(contents) && chains == old(chains) && fat == old(fat)
        invariant forall j :: 0 <= j < i ==> Settled(files[j])
      {
        if files[i].cached {
          SynchroniseCachedFile(i);
        } else {
          UncachedSettled(St(), i, size, dataStart);
        }
        i := i + 1;
      }
      forall f | 0 <= f < |files|
        ensures OnDevice(St(), f)
      {
        SyncedOnDevice(St(), f, size, dataStart);
      }
      RemountKeepsContents(St(), size, dataStart);
    }

    method FlushAndClean(f: nat, i: nat)
      requires Valid() && f < |files| && files[f].cached && i < |files[f].slots| && files[f].slots[i].status.Dirty?
      modifies this`data, this`files
      ensures Valid() && Grew(old(St()), St(), f)
      ensures files[f] == old(files)[f].(slots := old(files)[f].slots[i := old(files)[f].slots[i].(status := Ready)])
    {
      hide StoreOk;
      ghost var st := St();
      CleanStore(st, f, i, size, dataStart);
      var file := files[f];
      data := data[file.allocMap[file.slots[i].block] := file.slots[i].cache];
      files := files[f := file.(slots := file.slots[i := file.slots[i].(status := Ready)])];
      assert St() == Cleaned(st, f, i);
    }

    method MarkSynchronised(f: nat)
      requires Valid() && f < |files|
      requires forall k :: 0 <= k < |files[f].slots| ==> !files[f].slots[k].status.Dirty?
      modifies this`files
      ensures Valid() && Grew(old(St()), St(), f)
      ensures files[f] == old(files)[f].(changedCache := false)
    {
      hide StoreOk;
      FileFacts(St(), f, size, dataStart);
      var file := files[f].(changedCache := false);
      RecacheStore(St(), f, file, size, dataStart);
      files := files[f := file];
    }

    // Read a chain from the FAT.
    method WalkChain(first: nat, ghost c: seq<nat>) returns (allocMap: seq<nat>)
      requires IsChain(fat, first, c)
      ensures allocMap == c
    {
      allocMap := [first];
      var i := 1;
      while allocMap[i - 1] != END_OF_CHAIN
        invariant 1 <= i == |allocMap| <= |c| + 1
        invariant allocMap[..i - 1] == c[..i - 1] && allocMap[i - 1] == Link(c, i - 1)
        decreases |c| + 1 - i
      {
        assert allocMap[i - 1] == c[i - 1];
        allocMap := allocMap + [fat[allocMap[i - 1]]];
        i := i + 1;
      }
      assert i - 1 == |c|;
      allocMap := allocMap[..i - 1];
    }

    // Set up the cache of a file found in the directory.
    method CacheFile(f: nat)
      requires Valid() && f < |files|
      modifies this`files
      ensures Valid() && |files| == |old(files)| && files[f].cached
      ensures f < |old(chains)| && St() == InCache(old(St()), f)
    {
      hide StoreOk;
      StoreLengths(St(), size, dataStart);
      if files[f].cached {
        return;
      }
      ghost var st := St();
      FileFacts(St(), f, size, dataStart);
      var allocMap := WalkChain(files[f].target.payload, chains[f]);
      OpenStore(st, f, size, dataStart);
      var slots := seq(MAX_CACHED_BLOCKS, _ => EMPTY_SLOT);
      files := files[f := files[f].(cached := true, allocMap := allocMap, overwritten := 0, slots := slots)];
      assert slots == Opened(st, f).files[f].slots;
      assert St() == Opened(st, f);
    }

    method Seek(h: int, offset: int, whence: Whence) returns (r: IoResult, ret: int)
      requires Valid()
      modifies this`handles
      ensures Valid() && SeekStep(old(handles), h, offset, whence, r, handles) && ret == Returned(r)
    {
      if h !in handles {
        return Failed(EBADF, 0), -1;
      }
      var p := SeekTarget(handles[h], offset, whence);
      if p >= handles[h].end && !handles[h].writable {
        return Failed(EINVAL, 0), -1;
      }
      handles := handles[h := handles[h].(ptr := p)];
      r, ret := Done(p), Returned(Done(p));
    }

    // The lowest handle not in use.
    method NewHandleId() returns (h: int)
      ensures h !in handles
    {
      h := 0;
      ghost var left := set k | k in handles && 0 <= k;
      while h in handles
        invariant h >= 0
        invariant forall k :: k in left <==> k in handles && h <= k
        decreases |left|
      {
        left := left - {h};
        h := h + 1;
      }
    }

    method Open(f: nat, trunc: bool, append: bool, writable: bool) returns (h: int)
      requires Valid() && f < |files|
      modifies this
      ensures Valid() && OpenStep(old(St()), old(handles), f, trunc, append, writable, h, St(), handles)
    {
      hide StoreOk, HandlesOk, OpenStep, Opened, Erased;
      StoreLengths(St(), size, dataStart);
      ghost var s, hs := St(), handles;
      CacheFile(f);
      if trunc {
        Erase(f);
      }
      h := NewHandleId();
      OpenIs(s, hs, f, trunc, append, writable, h, St(), size, dataStart);
      handles := handles[h := Handle(f, 0, files[f].target.size, append, writable, false)];
    }

    method Create(append: bool, writable: bool) returns (h: int)
      requires Valid()
      modifies this
      ensures Valid() && CreateStep(old(St()), old(handles), append, writable, h, St(), handles)
    {
      hide StoreOk;
      CreateStore(St(), size, dataStart);
      files := files + [File(Entry(END_OF_CHAIN, 0), Entry(END_OF_CHAIN, 0), true, [],
                             seq(MAX_CACHED_BLOCKS, _ => EMPTY_SLOT), 0, false, false)];
      chains := chains + [[]];
      contents := contents + [[]];
      h := NewHandleId();
      handles := handles[h := Handle(|files| - 1, 0, 0, append, writable, false)];
      assert St() == Created(old(St()));
    }

    // One operation.
    method Do(op: Op) returns (out: Outcome)
      requires Valid() && Admissible(size, State(St(), handles), op)
      modifies this
      ensures Valid() && Step(size, State(old(St()), old(handles)), op, out, State(St(), handles))
    {
      hide StoreOk;
      match op
      case ReadOp(h, want) =>
        var r, bytes := Read(h, want);
        out := Io(r, bytes);
      case WriteOp(h, buf) =>
        var r := Write(h, buf);
        out := Io(r, []);
      case SeekOp(h, offset, whence) =>
        var r, ret := Seek(h, offset, whence);
        out := Io(r, []);
      case OpenOp(f, trunc, append, writable) =>
        var h := Open(f, trunc, append, writable);
        out := NewHandle(h);
      case CreateOp(append, writable) =>
        var h := Create(append, writable);
        out := NewHandle(h);
      case SyncOp(f) =>
        SynchroniseCachedFile(f);
        out := Synced;
    }

    // Whether file `f` can reach `n` bytes.
    method HasRoom(f: nat, n: nat) returns (b: bool)
      requires Valid() && f < |files| && files[f].cached
      ensures b == Room(size, St(), f, n)
    {
      hide StoreOk;
      FileFacts(St(), f, size, dataStart);
      b := BlocksFor(n, size) <= |files[f].allocMap| + |Free(fat)|;
    }

    method IsAdmissible(op: Op) returns (b: bool)
      requires Valid()
      ensures b == Admissible(size, State(St(), handles), op)
    {
      hide StoreOk;
      match op
      case ReadOp(h, want) =>
        b := true;
        if h in handles && !handles[h].isDirectory {
          var stop := handles[h].ptr + Clip(handles[h].ptr, handles[h].end, want);
          b := HasRoom(handles[h].file, stop);
          b := b && stop < WORD;
        }
      case WriteOp(h, buf) =>
        b := true;
        if h in handles && !handles[h].isDirectory {
          b := HasRoom(handles[h].file, StartOf(handles[h]) + |buf|);
        }
      case SeekOp(_, _, _) =>
        b := true;
      case OpenOp(f, _, _, _) =>
        b := f < |files|;
      case CreateOp(_, _) =>
        b := true;
      case SyncOp(f) =>
        b := f < |files| && files[f].cached;
    }

    // Any sequence of operations, as far as they are admissible, is a run.
    method DoAll(ops: seq<Op>) returns (outs: seq<Outcome>, ghost xs: seq<State>)
      requires Valid()
      modifies this
      ensures Valid() && Run(size, dataStart, xs, ops, outs)
      ensures xs[0] == State(old(St()), old(handles)) && xs[|outs|] == State(St(), handles)
      ensures |outs| < |ops| ==> !Admissible(size, xs[|outs|], ops[|outs|])
    {
      hide StoreOk;
      StoreLengths(St(), size, dataStart);
      outs, xs := [], [State(St(), handles)];
      while |outs| < |ops|
        invariant Valid() && Run(size, dataStart, xs, ops, outs)
        invariant xs[0] == State(old(St()), old(handles)) && xs[|outs|] == State(St(), handles)
      {
        var go := IsAdmissible(ops[|outs|]);
        if !go {
          return;
        }
        var out := Do(ops[|outs|]);
        outs, xs := outs + [out], xs + [State(St(), handles)];
      }
    }
  }

  // The size recorded after a write is not always right.  On a fresh device: create a file, open it a
  // second time while it is empty, write 100 bytes through the first handle and 10 through the second.
  // Unless memory runs out, the file of 100 bytes then has size 10.
  method ShrinkThroughSecondHandle() returns (m: Mount, before: nat, done: bool)
    ensures fresh(m) && m.Valid()
    ensures done ==> before == 100 && |m.files| == 1 && m.files[0].target.size == 10
    ensures done ==> |m.contents| == 1 && |FileBytes(m.St(), 0)| >= 100
    ensures !done ==> m.refusals > 0
  {
    hide StoreOk;
    m := new Mount.Formatted(512, 4, 1);
    var h := m.Create(false, true);
    var g := m.Open(0, false, false, true);
    before, done := 0, false;
    StoreLengths(m.St(), m.size, m.dataStart);
    var r := m.Write(h, seq(100, _ => 1));
    if r.Done? {
      before := m.files[0].target.size;
      StoreLengths(m.St(), m.size, m.dataStart);
      r := m.Write(g, seq(10, _ => 2));
      StoreLengths(m.St(), m.size, m.dataStart);
      done := r.Done?;
    }
  }
}

// The echfs store: FAT chains, per-file write-back block caches, and the lemmas that say
// how one step of the driver changes them.  The driver itself is in Echfs.dfy.

module EchfsModel {
  import opened Bytes

  const END_OF_CHAIN: nat := 0xffff_ffff_ffff_ffff
  const RESERVED_BLOCK: nat := 0xffff_ffff_ffff_fff0
  const MAX_CACHED_BLOCKS: nat := 8192

  datatype Status = NotReady | Ready | Dirty

  // One slot of a file's cache: which block of the file it holds, and its bytes.
  datatype Slot = Slot(block: nat, status: Status, cache: Block)

  function Max(a: nat, b: nat): nat {
    if a < b then b else a
  }

  const EMPTY_SLOT := Slot(0, NotReady, [])

  // What the directory table on the device records of a file.
  datatype Entry = Entry(payload: nat, size: nat)

  // A regular file of the mount.  `target` is the entry as the driver sees it, `onDisk` the
  // entry as the device has it; the remaining fields are in use once the file is cached.
  datatype File = File(
    onDisk: Entry,
    target: Entry,
    cached: bool,
    allocMap: seq<nat>,
    slots: seq<Slot>,
    overwritten: nat,
    changedEntry: bool,
    changedCache: bool)

  // ---------- FAT chains ----------

  function Link(c: seq<nat>, k: nat): nat {
    if k < |c| then c[k] else END_OF_CHAIN
  }

  // `c` is the chain of blocks that starts at `start` in the FAT.
  ghost predicate IsChain(fat: seq<nat>, start: nat, c: seq<nat>) {
    && start == Link(c, 0)
    && (forall k :: 0 <= k < |c| ==> 0 < c[k] < |fat| && c[k] < END_OF_CHAIN)
    && (forall k :: 0 <= k < |c| ==> fat[c[k]] == Link(c, k + 1))
  }

  ghost predicate NoShare(c: seq<nat>, d: seq<nat>) {
    forall k :: 0 <= k < |c| ==> c[k] !in d
  }

  ghost predicate Disjoint(chains: seq<seq<nat>>) {
    forall i, j :: 0 <= i < |chains| && 0 <= j < |chains| && i != j ==> NoShare(chains[i], chains[j])
  }

  ghost predicate ChainsOk(fat: seq<nat>, files: seq<File>, chains: seq<seq<nat>>) {
    && 0 < |fat| < RESERVED_BLOCK
    && fat[0] != 0
    && |chains| == |files|
    && (forall i :: 0 <= i < |files| ==> IsChain(fat, files[i].target.payload, chains[i]))
    && Disjoint(chains)
  }

  // Blocks below `start` hold the boot area, the FAT and the directory; no chain enters them.
  ghost predicate RegionOk(fat: seq<nat>, chains: seq<seq<nat>>, start: nat) {
    && 0 < start <= |fat|
    && (forall i :: 0 <= i < start ==> fat[i] != 0)
    && (forall i, k :: 0 <= i < |chains| && 0 <= k < |chains[i]| ==> start <= chains[i][k])
  }

  function Free(fat: seq<nat>): set<nat> {
    set i: nat | i < |fat| && fat[i] == 0
  }

  // Of a table whose entries are free from `lo` on and not before, these are the free entries.
  lemma {:induction false} FreeCount(fat: seq<nat>, lo: nat)
    requires lo <= |fat| && forall i :: 0 <= i < |fat| ==> (fat[i] == 0 <==> lo <= i)
    ensures |Free(fat)| == |fat| - lo
    decreases |fat| - lo
  {
    if lo == |fat| {
      assert Free(fat) == {};
    } else {
      var less := fat[lo := 1];
      FreeCount(less, lo + 1);
      assert Free(fat) == Free(less) + {lo};
    }
  }

  function TotalLength(chains: seq<seq<nat>>): nat {
    if chains == [] then 0 else |chains[0]| + TotalLength(chains[1..])
  }

  // A chain that reaches its end never repeats a block.
  lemma {:induction false} ChainSuffixSame(fat: seq<nat>, start: nat, c: seq<nat>, a: nat, b: nat)
    requires IsChain(fat, start, c) && |fat| < RESERVED_BLOCK
    requires a <= b < |c| && c[a] == c[b]
    ensures a == b
    decreases |c| - b
  {
    if a < b {
      assert Link(c, a + 1) == Link(c, b + 1);
      assert c[a + 1] < |fat|;
      if b + 1 < |c| {
        ChainSuffixSame(fat, start, c, a + 1, b + 1);
      }
    }
  }

  lemma ChainDistinct(fat: seq<nat>, start: nat, c: seq<nat>)
    requires IsChain(fat, start, c) && |fat| < RESERVED_BLOCK
    ensures forall a, b :: 0 <= a < b < |c| ==> c[a] != c[b]
  {
    forall a, b | 0 <= a < b < |c|
      ensures c[a] != c[b]
    {
      if c[a] == c[b] {
        ChainSuffixSame(fat, start, c, a, b);
      }
    }
  }

  // Two chains with the same start are the same chain: the walk is deterministic.
  lemma ChainUnique(fat: seq<nat>, start: nat, c: seq<nat>, d: seq<nat>)
    requires IsChain(fat, start, c) && IsChain(fat, start, d)
    ensures c == d
  {
    ChainsAgree(fat, start, c, d, 0);
  }

  lemma {:induction false} ChainsAgree(fat: seq<nat>, start: nat, c: seq<nat>, d: seq<nat>, k: nat)
    requires IsChain(fat, start, c) && IsChain(fat, start, d)
    requires k <= |c| && k <= |d| && c[..k] == d[..k] && Link(c, k) == Link(d, k)
    ensures c == d
    decreases |c| - k
  {
    if k < |c| {
      assert c[k] == d[k];
      assert c[..k + 1] == d[..k + 1];
      ChainsAgree(fat, start, c, d, k + 1);
    } else {
      assert c == c[..k] && d == d[..k];
    }
  }

  lemma {:induction false} TotalLengthUpdate(chains: seq<seq<nat>>, f: nat, c: seq<nat>)
    requires f < |chains|
    ensures TotalLength(chains[f := c]) + |chains[f]| == TotalLength(chains) + |c|
  {
    if f == 0 {
      assert chains[f := c][1..] == chains[1..];
    } else {
      TotalLengthUpdate(chains[1..], f - 1, c);
      assert chains[f := c][1..] == chains[1..][f - 1 := c];
    }
  }

  // A block on a chain is not free.
  lemma ChainNotFree(fat: seq<nat>, files: seq<File>, chains: seq<seq<nat>>, i: nat, k: nat)
    requires ChainsOk(fat, files, chains) && i < |chains| && k < |chains[i]|
    ensures fat[chains[i][k]] != 0
  {
    assert IsChain(fat, files[i].target.payload, chains[i]);
    assert k + 1 < |chains[i]| ==> 0 < chains[i][k + 1];
  }

  // What `allocate_empty_block` writes: `nb` ends a chain, and `prev`, if any, links to it.
  function Linked(fat: seq<nat>, nb: nat, prev: nat): (r: seq<nat>)
    requires nb < |fat| && prev < |fat|
    ensures |r| == |fat|
  {
    var g := fat[nb := END_OF_CHAIN];
    if prev != 0 then g[prev := nb] else g
  }

  // A chain that does not pass through `x` does not see a change of the FAT at `x`.
  lemma ChainFrame(fat: seq<nat>, start: nat, c: seq<nat>, fat': seq<nat>)
    requires IsChain(fat, start, c) && |fat'| == |fat|
    requires forall k :: 0 <= k < |c| ==> fat'[c[k]] == fat[c[k]]
    ensures IsChain(fat', start, c)
  {
  }

  lemma ChainAppend(fat: seq<nat>, start: nat, c: seq<nat>, nb: nat, fat': seq<nat>)
    requires IsChain(fat, start, c) && |fat| < RESERVED_BLOCK
    requires 0 < nb < |fat| && nb !in c
    requires fat' == Linked(fat, nb, if c == [] then 0 else c[|c| - 1])
    ensures IsChain(fat', (c + [nb])[0], c + [nb])
  {
    var d := c + [nb];
    ChainDistinct(fat, start, c);
    forall k | 0 <= k < |d|
      ensures 0 < d[k] < |fat'| && fat'[d[k]] == Link(d, k + 1)
    {
      if k < |c| - 1 {
        assert fat[c[k]] == Link(c, k + 1);
      }
    }
  }

  lemma DisjointAppend(chains: seq<seq<nat>>, f: nat, nb: nat)
    requires Disjoint(chains) && f < |chains|
    requires forall i :: 0 <= i < |chains| ==> nb !in chains[i]
    ensures Disjoint(chains[f := chains[f] + [nb]])
  {
  }

  // A free block is on no chain.
  lemma FreeOnNoChain(fat: seq<nat>, files: seq<File>, chains: seq<seq<nat>>, nb: nat)
    requires ChainsOk(fat, files, chains) && nb < |fat| && fat[nb] == 0
    ensures forall i :: 0 <= i < |chains| ==> nb !in chains[i]
  {
    forall i | 0 <= i < |chains|
      ensures nb !in chains[i]
    {
      if nb in chains[i] {
        var k :| 0 <= k < |chains[i]| && chains[i][k] == nb;
        ChainNotFree(fat, files, chains, i, k);
      }
    }
  }

  // Appending a free block to one file's chain keeps every chain, and moves one block from
  // the free entries to the chains.
  lemma AppendBlock(fat: seq<nat>, files: seq<File>, chains: seq<seq<nat>>, f: nat, nb: nat,
                    fat': seq<nat>, files': seq<File>)
    requires ChainsOk(fat, files, chains) && f < |files|
    requires 0 < nb < |fat| && fat[nb] == 0
    requires forall k :: 0 <= k < |chains[f]| ==> chains[f][k] < |fat|
    requires fat' == Linked(fat, nb, if chains[f] == [] then 0 else chains[f][|chains[f]| - 1])
    requires |files'| == |files|
    requires forall i :: 0 <= i < |files| && i != f ==> files'[i].target.payload == files[i].target.payload
    requires files'[f].target.payload == (chains[f] + [nb])[0]
    ensures ChainsOk(fat', files', chains[f := chains[f] + [nb]])
    ensures Free(fat') == Free(fat) - {nb}
    ensures |Free(fat')| == |Free(fat)| - 1
    ensures TotalLength(chains[f := chains[f] + [nb]]) == TotalLength(chains) + 1
  {
    hide IsChain, Disjoint, NoShare;
    var prev := if chains[f] == [] then 0 else chains[f][|chains[f]| - 1];
    FreeOnNoChain(fat, files, chains, nb);
    ChainAppend(fat, files[f].target.payload, chains[f], nb, fat');
    DisjointAppend(chains, f, nb);
    OthersKept(fat, files, chains, f, fat', files');
    assert prev != 0 ==> fat[prev] != 0 by {
      if prev != 0 {
        ChainNotFree(fat, files, chains, f, |chains[f]| - 1);
      }
    }
    assert Free(fat') == Free(fat) - {nb};
    assert nb in Free(fat);
    TotalLengthUpdate(chains, f, chains[f] + [nb]);
  }

  // The chains of the other files, when the FAT changed only on file `f`'s chain and free blocks.
  lemma OthersKept(fat: seq<nat>, files: seq<File>, chains: seq<seq<nat>>, f: nat, fat': seq<nat>, files': seq<File>)
    requires ChainsOk(fat, files, chains) && f < |files| == |files'| && |fat'| == |fat|
    requires forall i :: 0 <= i < |files| && i != f ==> files'[i].target.payload == files[i].target.payload
    requires forall x :: 0 <= x < |fat| && fat[x] != 0 && x !in chains[f] ==> fat'[x] == fat[x]
    ensures forall i :: 0 <= i < |files| && i != f ==> IsChain(fat', files'[i].target.payload, chains[i])
  {
    forall i | 0 <= i < |files| && i != f
      ensures IsChain(fat', files'[i].target.payload, chains[i])
    {
      assert IsChain(fat, files[i].target.payload, chains[i]);
      forall k | 0 <= k < |chains[i]|
        ensures fat'[chains[i][k]] == fat[chains[i][k]]
      {
        assert NoShare(chains[i], chains[f]);
        ChainNotFree(fat, files, chains, i, k);
      }
      ChainFrame(fat, files[i].target.payload, chains[i], fat');
    }
  }

  lemma DisjointErase(chains: seq<seq<nat>>, f: nat)
    requires Disjoint(chains) && f < |chains|
    ensures Disjoint(chains[f := []])
  {
  }

  // The FAT once the first `n` blocks of a chain have been zeroed.
  function Zeroed(fat: seq<nat>, c: seq<nat>, n: nat): (r: seq<nat>)
    requires n <= |c| && forall k :: 0 <= k < |c| ==> c[k] < |fat|
    ensures |r| == |fat|
  {
    if n == 0 then fat else Zeroed(fat, c, n - 1)[c[n - 1] := 0]
  }

  lemma {:induction false} ZeroedAt(fat: seq<nat>, c: seq<nat>, n: nat, x: nat)
    requires n <= |c| && (forall k :: 0 <= k < |c| ==> c[k] < |fat|) && x < |fat|
    ensures Zeroed(fat, c, n)[x] == if x in c[..n] then 0 else fat[x]
  {
    if n != 0 {
      ZeroedAt(fat, c, n - 1, x);
      assert c[..n] == c[..n - 1] + [c[n - 1]];
    }
  }

  function Elements(c: seq<nat>): set<nat> {
    set x | x in c
  }

  lemma {:induction false} SetOfDistinct(c: seq<nat>)
    requires forall a, b :: 0 <= a < b < |c| ==> c[a] != c[b]
    ensures |Elements(c)| == |c|
  {
    if c != [] {
      var d, x := c[..|c| - 1], c[|c| - 1];
      SetOfDistinct(d);
      assert x !in Elements(d);
      assert Elements(c) == Elements(d) + {x} by {
        assert c == d + [x];
      }
    }
  }

  // Zeroing a file's whole chain keeps every other chain and frees exactly that chain.
  lemma EraseChain(fat: seq<nat>, files: seq<File>, chains: seq<seq<nat>>, f: nat,
                   fat': seq<nat>, files': seq<File>)
    requires ChainsOk(fat, files, chains) && f < |files|
    requires forall k :: 0 <= k < |chains[f]| ==> chains[f][k] < |fat|
    requires fat' == Zeroed(fat, chains[f], |chains[f]|)
    requires |files'| == |files|
    requires forall i :: 0 <= i < |files| && i != f ==> files'[i].target.payload == files[i].target.payload
    requires files'[f].target.payload == END_OF_CHAIN
    ensures ChainsOk(fat', files', chains[f := []])
    ensures Free(fat') == Free(fat) + Elements(chains[f])
    ensures |Free(fat')| == |Free(fat)| + |chains[f]|
    ensures TotalLength(chains[f := []]) == TotalLength(chains) - |chains[f]|
  {
    hide IsChain, Disjoint, NoShare;
    var c := chains[f];
    assert c[..|c|] == c;
    forall x: nat | x < |fat|
      ensures fat'[x] == if x in c then 0 else fat[x]
    {
      ZeroedAt(fat, c, |c|, x);
    }
    OthersKept(fat, files, chains, f, fat', files');
    EmptyChain(fat', files'[f].target.payload);
    DisjointErase(chains, f);
    FreedExactly(fat, files, chains, f, fat');
    TotalLengthUpdate(chains, f, []);
    ChainAvoidsZero(fat, files, chains, f);
  }

  lemma EmptyChain(fat: seq<nat>, start: nat)
    requires start == END_OF_CHAIN
    ensures IsChain(fat, start, [])
  {
  }

  lemma ChainAvoidsZero(fat: seq<nat>, files: seq<File>, chains: seq<seq<nat>>, f: nat)
    requires ChainsOk(fat, files, chains) && f < |files|
    ensures 0 !in chains[f]
  {
    assert IsChain(fat, files[f].target.payload, chains[f]);
  }

  lemma FreedExactly(fat: seq<nat>, files: seq<File>, chains: seq<seq<nat>>, f: nat, fat': seq<nat>)
    requires ChainsOk(fat, files, chains) && f < |files| && |fat'| == |fat|
    requires forall x :: 0 <= x < |fat| ==> fat'[x] == if x in chains[f] then 0 else fat[x]
    ensures Free(fat') == Free(fat) + Elements(chains[f])
    ensures |Free(fat')| == |Free(fat)| + |chains[f]|
  {
    var c := chains[f];
    assert IsChain(fat, files[f].target.payload, c);
    forall x | x in c
      ensures 0 <= x < |fat| && fat[x] != 0
    {
      var k :| 0 <= k < |c| && c[k] == x;
      ChainNotFree(fat, files, chains, f, k);
    }
    assert Free(fat') == Free(fat) + Elements(c);
    assert Free(fat) !! Elements(c);
    ChainDistinct(fat, files[f].target.payload, c);
    SetOfDistinct(c);
  }

  // ---------- one file's cache ----------

  ghost predicate NoDirty(slots: seq<Slot>, b: nat) {
    forall s :: 0 <= s < |slots| && slots[s].status.Dirty? ==> slots[s].block != b
  }

  // The cache of one file is coherent with its contents `blocks`: every slot in use shows the
  // contents, no block has two slots, and the device has every block that is not dirty.
  ghost predicate CacheOk(file: File, chain: seq<nat>, blocks: seq<Block>, data: seq<Block>, size: nat) {
    && |file.slots| == (if file.cached then MAX_CACHED_BLOCKS else 0) && file.overwritten <= MAX_CACHED_BLOCKS
    && |blocks| == |chain| && Blocky(blocks, size)
    && (forall k :: 0 <= k < |chain| ==> chain[k] < |data|)
    && (file.cached ==> file.allocMap == chain)
    && (forall s :: 0 <= s < |file.slots| && !file.slots[s].status.NotReady? ==>
          file.slots[s].block < |blocks| && file.slots[s].cache == blocks[file.slots[s].block])
    && (forall s, t | 0 <= s < t < |file.slots| ::
          !file.slots[s].status.NotReady? && !file.slots[t].status.NotReady? ==>
          file.slots[s].block != file.slots[t].block)
    && (forall b :: 0 <= b < |blocks| && NoDirty(file.slots, b) ==> data[chain[b]] == blocks[b])
    && (!file.changedCache ==> forall s :: 0 <= s < |file.slots| ==> !file.slots[s].status.Dirty?)
    && (!file.changedEntry ==> file.onDisk == file.target)
    && (!file.cached ==> !file.changedEntry)
  }

  ghost predicate CachesOk(files: seq<File>, chains: seq<seq<nat>>, contents: seq<seq<Block>>,
                           data: seq<Block>, size: nat) {
    && |files| == |chains| == |contents|
    && Blocky(data, size)
    && (forall i :: 0 <= i < |files| ==> CacheOk(files[i], chains[i], contents[i], data, size))
  }

  // The concrete state leaves no choice for the contents.
  lemma ContentsDetermined(file: File, chain: seq<nat>, x: seq<Block>, y: seq<Block>, data: seq<Block>, size: nat)
    requires CacheOk(file, chain, x, data, size) && CacheOk(file, chain, y, data, size)
    ensures x == y
  {
    forall b | 0 <= b < |x|
      ensures x[b] == y[b]
    {
      if !NoDirty(file.slots, b) {
        var s :| 0 <= s < |file.slots| && file.slots[s].status.Dirty? && file.slots[s].block == b;
      }
    }
  }

  // Writing a dirty slot back: the device catches up with the contents.
  lemma FlushSlot(file: File, chain: seq<nat>, blocks: seq<Block>, data: seq<Block>, size: nat, s: nat)
    requires CacheOk(file, chain, blocks, data, size) && Blocky(data, size)
    requires forall a, b :: 0 <= a < b < |chain| ==> chain[a] != chain[b]
    requires s < |file.slots| && file.slots[s].status.Dirty?
    ensures file.slots[s].block < |chain|
    ensures CacheOk(file, chain, blocks, data[chain[file.slots[s].block] := file.slots[s].cache], size)
    ensures data[chain[file.slots[s].block] := file.slots[s].cache][chain[file.slots[s].block]]
            == blocks[file.slots[s].block]
  {
  }

  // Marking a flushed slot clean.
  lemma MarkReady(file: File, chain: seq<nat>, blocks: seq<Block>, data: seq<Block>, size: nat, s: nat)
    requires CacheOk(file, chain, blocks, data, size)
    requires s < |file.slots| && file.slots[s].status.Dirty?
    requires data[chain[file.slots[s].block]] == blocks[file.slots[s].block]
    ensures CacheOk(file.(slots := file.slots[s := file.slots[s].(status := Ready)]), chain, blocks, data, size)
  {
    var slots' := file.slots[s := file.slots[s].(status := Ready)];
    forall b | 0 <= b < |blocks| && NoDirty(slots', b)
      ensures data[chain[b]] == blocks[b]
    {
      if b != file.slots[s].block {
        forall t | 0 <= t < |file.slots| && file.slots[t].status.Dirty?
          ensures file.slots[t].block != b
        {
          if t != s {
            assert slots'[t] == file.slots[t];
          }
        }
        assert NoDirty(file.slots, b);
      }
    }
  }

  // Loading block `b`, which no slot holds, into a slot whose own bytes the device already has.
  lemma LoadSlot(file: File, chain: seq<nat>, blocks: seq<Block>, data: seq<Block>, size: nat, s: nat, b: nat)
    requires CacheOk(file, chain, blocks, data, size) && file.cached
    requires s < |file.slots| && b < |chain|
    requires forall t :: 0 <= t < |file.slots| && !file.slots[t].status.NotReady? ==> file.slots[t].block != b
    requires file.slots[s].status.Dirty? ==> data[chain[file.slots[s].block]] == blocks[file.slots[s].block]
    ensures CacheOk(file.(slots := file.slots[s := Slot(b, Ready, data[chain[b]])]), chain, blocks, data, size)
  {
    var slots' := file.slots[s := Slot(b, Ready, data[chain[b]])];
    assert NoDirty(file.slots, b);
    forall c | 0 <= c < |blocks| && NoDirty(slots', c)
      ensures data[chain[c]] == blocks[c]
    {
      if !(file.slots[s].status.Dirty? && c == file.slots[s].block) {
        forall t | 0 <= t < |file.slots| && file.slots[t].status.Dirty?
          ensures file.slots[t].block != c
        {
          if t != s {
            assert slots'[t] == file.slots[t];
          }
        }
        assert NoDirty(file.slots, c);
      }
    }
  }

  // Writing into a cached block changes that block of the contents and nothing else.
  lemma WriteSlot(file: File, chain: seq<nat>, blocks: seq<Block>, data: seq<Block>, size: nat,
                  s: nat, o: nat, w: seq<byte>)
    requires CacheOk(file, chain, blocks, data, size) && file.cached
    requires s < |file.slots| && !file.slots[s].status.NotReady? && o + |w| <= size
    ensures file.slots[s].block < |blocks| && |file.slots[s].cache| == size
    ensures var v := Splice(file.slots[s].cache, o, w);
            CacheOk(file.(slots := file.slots[s := Slot(file.slots[s].block, Dirty, v)], changedCache := true),
                    chain, blocks[file.slots[s].block := v], data, size)
  {
    var b := file.slots[s].block;
    var v := Splice(file.slots[s].cache, o, w);
    var slots' := file.slots[s := Slot(b, Dirty, v)];
    forall c | 0 <= c < |blocks| && NoDirty(slots', c)
      ensures data[chain[c]] == blocks[b := v][c]
    {
      assert slots'[s].block == b;
      assert c != b;
      forall t | 0 <= t < |file.slots| && file.slots[t].status.Dirty?
        ensures file.slots[t].block != c
      {
        if t != s {
          assert slots'[t] == file.slots[t];
        }
      }
      assert NoDirty(file.slots, c);
    }
  }

  // A grown file shows, past its old end, whatever the new block already held.
  lemma GrowCache(file: File, chain: seq<nat>, blocks: seq<Block>, data: seq<Block>, size: nat, nb: nat,
                  file': File)
    requires CacheOk(file, chain, blocks, data, size) && file.cached && Blocky(data, size)
    requires nb < |data|
    requires file' == file.(allocMap := chain + [nb], target := file'.target, changedEntry := file'.changedEntry)
    requires !file'.changedEntry ==> file'.target == file.target && !file.changedEntry
    ensures CacheOk(file', chain + [nb], blocks + [data[nb]], data, size)
  {
  }

  // Lifting a change of one file (and of device blocks of its own chain) to the whole mount.
  lemma OneFileChanged(files: seq<File>, chains: seq<seq<nat>>, contents: seq<seq<Block>>,
                       data: seq<Block>, size: nat, f: nat,
                       files': seq<File>, chains': seq<seq<nat>>, contents': seq<seq<Block>>, data': seq<Block>)
    requires CachesOk(files, chains, contents, data, size) && f < |files|
    requires |files'| == |files| && |chains'| == |chains| && |contents'| == |contents|
    requires forall i :: 0 <= i < |files| && i != f ==>
               files'[i] == files[i] && chains'[i] == chains[i] && contents'[i] == contents[i]
    requires Blocky(data', size) && |data'| == |data|
    requires forall i, k :: 0 <= i < |files| && i != f && 0 <= k < |chains[i]| ==>
               chains[i][k] < |data| && data'[chains[i][k]] == data[chains[i][k]]
    requires CacheOk(files'[f], chains'[f], contents'[f], data', size)
    ensures CachesOk(files', chains', contents', data', size)
  {
    forall i | 0 <= i < |files'|
      ensures CacheOk(files'[i], chains'[i], contents'[i], data', size)
    {
      if i != f {
        assert CacheOk(files[i], chains[i], contents[i], data, size);
      }
    }
  }

  // ---------- the whole mount ----------

  // Everything the files of one mount are made of; `chains` and `contents` are what the FAT
  // and the caches stand for.
  datatype Store = Store(
    fat: seq<nat>,
    data: seq<Block>,
    files: seq<File>,
    chains: seq<seq<nat>>,
    contents: seq<seq<Block>>)

  ghost predicate StoreOk(st: Store, size: nat, start: nat) {
    && size > 0
    && |st.data| == |st.fat|
    && ChainsOk(st.fat, st.files, st.chains)
    && RegionOk(st.fat, st.chains, start)
    && CachesOk(st.files, st.chains, st.contents, st.data, size)
  }

  // Only file `f` changed: it may have grown, keeping its existing contents, and blocks only
  // moved from the free entries to its chain.
  ghost predicate Grew(s: Store, t: Store, f: nat) {
    && f < |s.files| == |t.files| == |s.chains| == |t.chains| == |s.contents| == |t.contents|
    && (forall i :: 0 <= i < |s.files| && i != f ==>
          t.files[i] == s.files[i] && t.chains[i] == s.chains[i] && t.contents[i] == s.contents[i])
    && s.chains[f] <= t.chains[f]
    && s.contents[f] <= t.contents[f]
    && t.files[f].target.size == s.files[f].target.size
    && t.files[f].cached == s.files[f].cached
    && |Free(t.fat)| + |t.chains[f]| == |Free(s.fat)| + |s.chains[f]|
    && |Free(t.fat)| + TotalLength(t.chains) == |Free(s.fat)| + TotalLength(s.chains)
  }

  lemma GrewTransitive(s: Store, t: Store, u: Store, f: nat)
    requires Grew(s, t, f) && Grew(t, u, f)
    ensures Grew(s, u, f)
  {
  }

  // The store after file `f` took the free block `nb`.
  ghost function Grown(st: Store, f: nat, nb: nat): Store
    requires f < |st.files| == |st.chains| == |st.contents| && nb < |st.fat| == |st.data|
    requires forall k :: 0 <= k < |st.chains[f]| ==> st.chains[f][k] < |st.fat|
  {
    var c, file := st.chains[f], st.files[f];
    var file' := if c == [] then file.(target := file.target.(payload := nb), changedEntry := true) else file;
    Store(Linked(st.fat, nb, if c == [] then 0 else c[|c| - 1]),
          st.data,
          st.files[f := file'.(allocMap := c + [nb])],
          st.chains[f := c + [nb]],
          st.contents[f := st.contents[f] + [st.data[nb]]])
  }

  lemma ChainInRange(st: Store, f: nat, size: nat, start: nat)
    requires StoreOk(st, size, start) && f < |st.files|
    ensures forall k :: 0 <= k < |st.chains[f]| ==> st.chains[f][k] < |st.fat|
  {
    assert IsChain(st.fat, st.files[f].target.payload, st.chains[f]);
  }

  lemma GrowRegion(fat: seq<nat>, chains: seq<seq<nat>>, f: nat, nb: nat, prev: nat, start: nat)
    requires RegionOk(fat, chains, start) && f < |chains|
    requires 0 < nb < |fat| && fat[nb] == 0 && prev < |fat|
    ensures RegionOk(Linked(fat, nb, prev), chains[f := chains[f] + [nb]], start)
  {
  }

  lemma GrowStore(st: Store, f: nat, nb: nat, size: nat, start: nat)
    requires StoreOk(st, size, start) && f < |st.files| && st.files[f].cached
    requires nb < |st.fat| && st.fat[nb] == 0
    ensures forall k :: 0 <= k < |st.chains[f]| ==> st.chains[f][k] < |st.fat|
    ensures StoreOk(Grown(st, f, nb), size, start)
    ensures Grew(st, Grown(st, f, nb), f)
  {
    hide CacheOk, TotalLength, Free;
    ChainInRange(st, f, size, start);
    var c, t := st.chains[f], Grown(st, f, nb);
    assert CacheOk(t.files[f], t.chains[f], t.contents[f], t.data, size) by {
      assert CacheOk(st.files[f], st.chains[f], st.contents[f], st.data, size);
      GrowCache(st.files[f], st.chains[f], st.contents[f], st.data, size, nb, t.files[f]);
    }
    assert ChainsOk(t.fat, t.files, t.chains) && |Free(t.fat)| == |Free(st.fat)| - 1
           && TotalLength(t.chains) == TotalLength(st.chains) + 1 by {
      assert IsChain(st.fat, st.files[f].target.payload, st.chains[f]);
      AppendBlock(st.fat, st.files, st.chains, f, nb, t.fat, t.files);
    }
    GrowRegion(st.fat, st.chains, f, nb, if c == [] then 0 else c[|c| - 1], start);
    KeepsCaches(st, t, f, size, start);
  }

  lemma ChainInData(st: Store, i: nat, k: nat, size: nat, start: nat)
    requires StoreOk(st, size, start) && i < |st.chains| && k < |st.chains[i]|
    ensures st.chains[i][k] < |st.data|
  {
    assert CacheOk(st.files[i], st.chains[i], st.contents[i], st.data, size);
  }

  // `CachesOk` after a change of one file that wrote device blocks of no other chain.
  lemma KeepsCaches(s: Store, t: Store, f: nat, size: nat, start: nat)
    requires StoreOk(s, size, start) && f < |s.files|
    requires |s.files| == |t.files| == |t.chains| == |t.contents| && |t.data| == |s.data|
    requires forall i :: 0 <= i < |s.files| && i != f ==>
               t.files[i] == s.files[i] && t.chains[i] == s.chains[i] && t.contents[i] == s.contents[i]
    requires Blocky(t.data, size)
    requires forall i, k :: 0 <= i < |s.files| && i != f && 0 <= k < |s.chains[i]| && s.chains[i][k] < |s.data| ==>
               t.data[s.chains[i][k]] == s.data[s.chains[i][k]]
    requires CacheOk(t.files[f], t.chains[f], t.contents[f], t.data, size)
    ensures CachesOk(t.files, t.chains, t.contents, t.data, size)
  {
    forall i, k | 0 <= i < |s.files| && 0 <= k < |s.chains[i]|
      ensures s.chains[i][k] < |s.data|
    {
      ChainInData(s, i, k, size, start);
    }
    OneFileChanged(s.files, s.chains, s.contents, s.data, size, f, t.files, t.chains, t.contents, t.data);
  }

  // The store with another cache for file `f`, and no change of its chain or contents.
  lemma RecacheStore(s: Store, f: nat, file: File, size: nat, start: nat)
    requires StoreOk(s, size, start) && f < |s.files|
    requires file.target == s.files[f].target && file.cached == s.files[f].cached
    requires CacheOk(file, s.chains[f], s.contents[f], s.data, size)
    ensures StoreOk(s.(files := s.files[f := file]), size, start)
    ensures Grew(s, s.(files := s.files[f := file]), f)
  {
    var t := s.(files := s.files[f := file]);
    SameChains(s, t, size, start);
    KeepsCaches(s, t, f, size, start);
  }

  // The store after a dirty slot of file `f` went back to the device.
  lemma FlushStore(s: Store, f: nat, k: nat, size: nat, start: nat)
    requires StoreOk(s, size, start) && f < |s.files|
    requires k < |s.files[f].slots| && s.files[f].slots[k].status.Dirty?
    ensures var slot := s.files[f].slots[k];
            && slot.block < |s.chains[f]| && s.files[f].allocMap == s.chains[f]
            && s.chains[f][slot.block] < |s.data|
            && var t := s.(data := s.data[s.chains[f][slot.block] := slot.cache]);
               && StoreOk(t, size, start) && Grew(s, t, f)
               && t.data[t.chains[f][slot.block]] == t.contents[f][slot.block]
  {
    assert CacheOk(s.files[f], s.chains[f], s.contents[f], s.data, size);
    assert IsChain(s.fat, s.files[f].target.payload, s.chains[f]);
    ChainDistinct(s.fat, s.files[f].target.payload, s.chains[f]);
    FlushSlot(s.files[f], s.chains[f], s.contents[f], s.data, size, k);
    var slot := s.files[f].slots[k];
    var t := s.(data := s.data[s.chains[f][slot.block] := slot.cache]);
    forall i | 0 <= i < |s.files| && i != f
      ensures s.chains[f][slot.block] !in s.chains[i]
    {
      assert NoShare(s.chains[f], s.chains[i]);
    }
    KeepsCaches(s, t, f, size, start);
  }

  // The store after `w` was written into the cached block of slot `k` of file `f`.
  ghost function Written(s: Store, f: nat, k: nat, o: nat, w: seq<byte>): Store
    requires f < |s.files| == |s.contents| && k < |s.files[f].slots|
    requires o + |w| <= |s.files[f].slots[k].cache| && s.files[f].slots[k].block < |s.contents[f]|
  {
    var slot := s.files[f].slots[k];
    var v := Splice(slot.cache, o, w);
    s.(files := s.files[f := s.files[f].(slots := s.files[f].slots[k := Slot(slot.block, Dirty, v)],
                                         changedCache := true)],
       contents := s.contents[f := s.contents[f][slot.block := v]])
  }

  lemma WriteStore(s: Store, f: nat, k: nat, o: nat, w: seq<byte>, size: nat, start: nat)
    requires StoreOk(s, size, start) && f < |s.files| && s.files[f].cached
    requires k < |s.files[f].slots| && !s.files[f].slots[k].status.NotReady? && o + |w| <= size
    ensures |s.files[f].slots[k].cache| == size && s.files[f].slots[k].block < |s.contents[f]|
    ensures StoreOk(Written(s, f, k, o, w), size, start)
  {
    assert CacheOk(s.files[f], s.chains[f], s.contents[f], s.data, size);
    WriteSlot(s.files[f], s.chains[f], s.contents[f], s.data, size, k, o, w);
    var t := Written(s, f, k, o, w);
    SameChains(s, t, size, start);
    KeepsCaches(s, t, f, size, start);
  }

  lemma SameChains(s: Store, t: Store, size: nat, start: nat)
    requires StoreOk(s, size, start)
    requires t.fat == s.fat && t.chains == s.chains && |t.files| == |s.files|
    requires forall i :: 0 <= i < |s.files| ==> t.files[i].target.payload == s.files[i].target.payload
    ensures ChainsOk(t.fat, t.files, t.chains)
  {
    forall i | 0 <= i < |t.files|
      ensures IsChain(t.fat, t.files[i].target.payload, t.chains[i])
    {
      assert IsChain(s.fat, s.files[i].target.payload, s.chains[i]);
    }
  }

  function Emptied(slots: seq<Slot>): (r: seq<Slot>)
    ensures |r| == |slots| && forall i :: 0 <= i < |r| ==> r[i] == slots[i].(status := NotReady)
  {
    seq(|slots|, i requires 0 <= i < |slots| => slots[i].(status := NotReady))
  }

  // The store after file `f` gave up its whole chain and emptied its cache.
  ghost function Erased(s: Store, f: nat): Store
    requires f < |s.files| == |s.chains| == |s.contents|
    requires forall k :: 0 <= k < |s.chains[f]| ==> s.chains[f][k] < |s.fat|
  {
    Store(Zeroed(s.fat, s.chains[f], |s.chains[f]|),
          s.data,
          s.files[f := s.files[f].(target := Entry(END_OF_CHAIN, 0), allocMap := [],
                                   slots := Emptied(s.files[f].slots),
                                   changedEntry := true, changedCache := false)],
          s.chains[f := []],
          s.contents[f := []])
  }

  lemma EraseStore(s: Store, f: nat, size: nat, start: nat)
    requires StoreOk(s, size, start) && f < |s.files| && s.files[f].cached
    ensures forall k :: 0 <= k < |s.chains[f]| ==> s.chains[f][k] < |s.fat|
    ensures StoreOk(Erased(s, f), size, start)
    ensures Free(Erased(s, f).fat) == Free(s.fat) + Elements(s.chains[f])
    ensures |Free(Erased(s, f).fat)| + TotalLength(Erased(s, f).chains) == |Free(s.fat)| + TotalLength(s.chains)
  {
    ChainInRange(s, f, size, start);
    var t := Erased(s, f);
    EraseChain(s.fat, s.files, s.chains, f, t.fat, t.files);
    EraseRegion(s, t, f, start);
    assert CacheOk(t.files[f], t.chains[f], t.contents[f], t.data, size) by {
      assert CacheOk(s.files[f], s.chains[f], s.contents[f], s.data, size);
    }
    KeepsCaches(s, t, f, size, start);
  }

  lemma EraseRegion(s: Store, t: Store, f: nat, start: nat)
    requires RegionOk(s.fat, s.chains, start) && f < |s.chains| && |t.fat| == |s.fat|
    requires t.chains == s.chains[f := []] && Free(t.fat) == Free(s.fat) + Elements(s.chains[f])
    ensures RegionOk(t.fat, t.chains, start)
  {
    forall i | 0 <= i < start
      ensures t.fat[i] != 0
    {
      assert i !in Free(t.fat);
    }
  }

  // From `s` to `t`, the bytes `w` were written at `pos` of file `f`: no other file changed, every
  // other byte of the file stayed, and the file grew only to the block that holds the last byte.
  ghost predicate WroteFile(s: Store, t: Store, f: nat, pos: nat, w: seq<byte>, size: nat)
    requires size > 0
  {
    && f < |s.files| == |t.files| == |s.chains| == |t.chains| == |s.contents| == |t.contents|
    && (forall i :: 0 <= i < |s.files| && i != f ==>
          t.files[i] == s.files[i] && t.chains[i] == s.chains[i] && t.contents[i] == s.contents[i])
    && s.chains[f] <= t.chains[f]
    && t.files[f].cached == s.files[f].cached
    && |Free(t.fat)| + |t.chains[f]| == |Free(s.fat)| + |s.chains[f]|
    && |Free(t.fat)| + TotalLength(t.chains) == |Free(s.fat)| + TotalLength(s.chains)
    && Wrote(Flat(s.contents[f]), Flat(t.contents[f]), pos, w)
    && |t.contents[f]| == if w == [] then |s.contents[f]| else Max(|s.contents[f]|, BlocksFor(pos + |w|, size))
  }

  // What a slot in use holds.
  lemma SlotShows(t: Store, f: nat, k: nat, size: nat, start: nat)
    requires StoreOk(t, size, start) && f < |t.files|
    requires k < |t.files[f].slots| && !t.files[f].slots[k].status.NotReady?
    ensures Blocky(t.contents[f], size) && t.files[f].slots[k].block < |t.contents[f]|
    ensures t.files[f].slots[k].cache == t.contents[f][t.files[f].slots[k].block]
  {
    assert CacheOk(t.files[f], t.chains[f], t.contents[f], t.data, size);
  }

  // Caching the block of `pos` and then writing `w` into it writes `w` at `pos` of the file.
  lemma WriteChunkStore(s: Store, t: Store, f: nat, k: nat, pos: nat, o: nat, w: seq<byte>, size: nat)
    requires Grew(s, t, f) && k < |t.files[f].slots| && Blocky(t.contents[f], size)
    requires t.files[f].slots[k].block < |t.contents[f]|
    requires t.files[f].slots[k].cache == t.contents[f][t.files[f].slots[k].block]
    requires At(pos, t.files[f].slots[k].block, o, size)
    requires |t.contents[f]| == Max(|s.contents[f]|, t.files[f].slots[k].block + 1)
    requires w != [] && o + |w| <= size
    ensures WroteFile(s, Written(t, f, k, o, w), f, pos, w, size)
  {
    var u, b := Written(t, f, k, o, w), t.files[f].slots[k].block;
    assert Wrote(Flat(s.contents[f]), Flat(u.contents[f]), pos, w) by {
      FlatPrefix(s.contents[f], t.contents[f]);
      ChunkSplice(t.contents[f], pos, b, o, w, size);
    }
    BlocksForChunk(pos, b, o, |w|, size);
  }

  // From `s` to `t`, file `f` was read: `bytes` is what it holds at `pos`, and caching it changed
  // nothing but, possibly, the number of blocks.
  ghost predicate ReadFile(s: Store, t: Store, f: nat, pos: nat, bytes: seq<byte>, size: nat)
    requires size > 0
  {
    && Grew(s, t, f)
    && (bytes != [] ==> pos + |bytes| <= |Flat(t.contents[f])| && bytes == Flat(t.contents[f])[pos..pos + |bytes|])
    && |t.contents[f]|
       == if bytes == [] then |s.contents[f]| else Max(|s.contents[f]|, BlocksFor(pos + |bytes|, size))
  }

  lemma ReadChunkStore(s: Store, t: Store, f: nat, k: nat, pos: nat, o: nat, n: nat, size: nat)
    requires Grew(s, t, f) && k < |t.files[f].slots| && Blocky(t.contents[f], size)
    requires t.files[f].slots[k].block < |t.contents[f]|
    requires t.files[f].slots[k].cache == t.contents[f][t.files[f].slots[k].block]
    requires At(pos, t.files[f].slots[k].block, o, size)
    requires |t.contents[f]| == Max(|s.contents[f]|, t.files[f].slots[k].block + 1)
    requires n > 0 && o + n <= size
    ensures ReadFile(s, t, f, pos, t.files[f].slots[k].cache[o..o + n], size)
  {
    BlocksForChunk(pos, t.files[f].slots[k].block, o, n, size);
    ChunkSlice(t.contents[f], pos, t.files[f].slots[k].block, o, n, size);
    assert |t.files[f].slots[k].cache[o..o + n]| == n;
  }

  lemma ReadMore(s: Store, t: Store, u: Store, f: nat, pos: nat, x: seq<byte>, y: seq<byte>, size: nat)
    requires size > 0
    requires ReadFile(s, t, f, pos, x, size) && ReadFile(t, u, f, pos + |x|, y, size)
    ensures ReadFile(s, u, f, pos, x + y, size)
  {
    FlatPrefix(t.contents[f], u.contents[f]);
    BlocksForMono(pos + |x|, pos + |x| + |y|, size);
    if y == [] {
      assert x + y == x;
    } else {
      assert pos + |x + y| == pos + |x| + |y|;
      var w := Flat(u.contents[f]);
      assert x == w[pos..pos + |x|];
      assert w[pos..pos + |x + y|] == w[pos..pos + |x|] + w[pos + |x|..pos + |x| + |y|];
    }
  }

  lemma WriteMore(s: Store, t: Store, u: Store, f: nat, pos: nat, x: seq<byte>, y: seq<byte>, size: nat)
    requires size > 0
    requires WroteFile(s, t, f, pos, x, size) && WroteFile(t, u, f, pos + |x|, y, size)
    ensures WroteFile(s, u, f, pos, x + y, size)
  {
    BlocksForMono(pos + |x|, pos + |x| + |y|, size);
    WroteMore(Flat(s.contents[f]), Flat(t.contents[f]), Flat(u.contents[f]), pos, x, y);
    if y == [] {
      assert x + y == x;
    } else {
      assert pos + |x + y| == pos + |x| + |y|;
    }
  }

  // The store after the driver recorded a new size for file `f`.
  ghost function Resized(s: Store, f: nat, n: nat): Store
    requires f < |s.files|
  {
    s.(files := s.files[f := s.files[f].(target := s.files[f].target.(size := n), changedEntry := true)])
  }

  lemma ResizeStore(s: Store, f: nat, n: nat, size: nat, start: nat)
    requires StoreOk(s, size, start) && f < |s.files| && s.files[f].cached
    ensures StoreOk(Resized(s, f, n), size, start)
  {
    var t := Resized(s, f, n);
    assert CacheOk(s.files[f], s.chains[f], s.contents[f], s.data, size);
    SameChains(s, t, size, start);
    KeepsCaches(s, t, f, size, start);
  }

  // The store after the chain of file `f` was read from the FAT and an empty cache set up.
  ghost function Opened(s: Store, f: nat): Store
    requires f < |s.files| == |s.chains|
  {
    s.(files := s.files[f := s.files[f].(cached := true, allocMap := s.chains[f], overwritten := 0,
                                         slots := seq(MAX_CACHED_BLOCKS, _ => EMPTY_SLOT))])
  }

  lemma OpenStore(s: Store, f: nat, size: nat, start: nat)
    requires StoreOk(s, size, start) && f < |s.files| && !s.files[f].cached
    ensures StoreOk(Opened(s, f), size, start)
  {
    var t := Opened(s, f);
    assert CacheOk(s.files[f], s.chains[f], s.contents[f], s.data, size);
    assert CacheOk(t.files[f], t.chains[f], t.contents[f], t.data, size) by {
      forall b | 0 <= b < |t.contents[f]|
        ensures t.data[t.chains[f][b]] == t.contents[f][b]
      {
        assert NoDirty(s.files[f].slots, b);
      }
    }
    SameChains(s, t, size, start);
    KeepsCaches(s, t, f, size, start);
  }

  // File `f` is on the device just as the driver sees it.
  ghost predicate OnDevice(s: Store, f: nat) {
    && f < |s.files| == |s.chains| == |s.contents|
    && s.files[f].onDisk == s.files[f].target
    && |s.contents[f]| == |s.chains[f]|
    && forall b :: 0 <= b < |s.chains[f]| ==>
         s.chains[f][b] < |s.data| && s.data[s.chains[f][b]] == s.contents[f][b]
  }

  // Nothing of the file is waiting to be written back.
  ghost predicate Settled(file: File) {
    file.onDisk == file.target && forall k :: 0 <= k < |file.slots| ==> !file.slots[k].status.Dirty?
  }

  lemma SyncedOnDevice(s: Store, f: nat, size: nat, start: nat)
    requires StoreOk(s, size, start) && f < |s.files| && Settled(s.files[f])
    ensures OnDevice(s, f)
  {
    assert CacheOk(s.files[f], s.chains[f], s.contents[f], s.data, size);
    forall b | 0 <= b < |s.chains[f]|
      ensures s.chains[f][b] < |s.data| && s.data[s.chains[f][b]] == s.contents[f][b]
    {
      assert NoDirty(s.files[f].slots, b);
    }
  }

  // What a later mount of the same device sees: no caches, and the entries on the device.
  ghost function Remounted(s: Store): Store {
    s.(files := seq(|s.files|, i requires 0 <= i < |s.files| =>
                      File(s.files[i].onDisk, s.files[i].onDisk, false, [], [], 0, false, false)))
  }

  // If every file is on the device, a remount has the same chains and the same contents: the
  // caches can be dropped without loss.
  lemma RemountKeepsContents(s: Store, size: nat, start: nat)
    requires StoreOk(s, size, start)
    requires forall f :: 0 <= f < |s.files| ==> OnDevice(s, f)
    ensures StoreOk(Remounted(s), size, start)
  {
    var t := Remounted(s);
    forall i | 0 <= i < |s.files|
      ensures t.files[i].target == s.files[i].target
    {
      assert OnDevice(s, i);
    }
    SameChains(s, t, size, start);
    forall i | 0 <= i < |t.files|
      ensures CacheOk(t.files[i], t.chains[i], t.contents[i], t.data, size)
    {
      assert CacheOk(s.files[i], s.chains[i], s.contents[i], s.data, size);
      assert OnDevice(s, i);
    }
  }

  lemma WroteNothing(s: Store, f: nat, pos: nat, size: nat, start: nat)
    requires StoreOk(s, size, start) && f < |s.files|
    ensures WroteFile(s, s, f, pos, [], size)
  {
  }

  lemma GrewSame(s: Store, f: nat, size: nat, start: nat)
    requires StoreOk(s, size, start) && f < |s.files|
    ensures Grew(s, s, f)
  {
  }

  // The store with a new, empty, cached file.
  ghost function Created(s: Store): Store {
    s.(files := s.files + [File(Entry(END_OF_CHAIN, 0), Entry(END_OF_CHAIN, 0), true, [],
                                seq(MAX_CACHED_BLOCKS, _ => EMPTY_SLOT), 0, false, false)],
       chains := s.chains + [[]],
       contents := s.contents + [[]])
  }

  lemma CreateStore(s: Store, size: nat, start: nat)
    requires StoreOk(s, size, start)
    ensures StoreOk(Created(s), size, start)
  {
    var t := Created(s);
    forall i | 0 <= i < |t.files|
      ensures IsChain(t.fat, t.files[i].target.payload, t.chains[i])
      ensures CacheOk(t.files[i], t.chains[i], t.contents[i], t.data, size)
    {
      if i < |s.files| {
        assert IsChain(s.fat, s.files[i].target.payload, s.chains[i]);
        assert CacheOk(s.files[i], s.chains[i], s.contents[i], s.data, size);
      }
    }
  }

  // What a good store says of one file.
  lemma FileFacts(s: Store, f: nat, size: nat, start: nat)
    requires StoreOk(s, size, start) && f < |s.files|
    ensures size > 0 && |s.files| == |s.chains| == |s.contents| && |s.data| == |s.fat| && |s.fat| < RESERVED_BLOCK
    ensures IsChain(s.fat, s.files[f].target.payload, s.chains[f])
    ensures CacheOk(s.files[f], s.chains[f], s.contents[f], s.data, size)
    ensures s.files[f].cached ==> |s.files[f].slots| == MAX_CACHED_BLOCKS && s.files[f].allocMap == s.chains[f]
    ensures |s.contents[f]| == |s.chains[f]| && Blocky(s.contents[f], size)
    ensures s.files[f].overwritten <= MAX_CACHED_BLOCKS
  {
    assert CacheOk(s.files[f], s.chains[f], s.contents[f], s.data, size);
  }

  lemma StoreLengths(s: Store, size: nat, start: nat)
    requires StoreOk(s, size, start)
    ensures size > 0 && |s.files| == |s.chains| == |s.contents| && |s.data| == |s.fat|
  {
  }

  // Recording a new size does not touch what was written.
  lemma WroteResized(s: Store, t: Store, f: nat, pos: nat, w: seq<byte>, size: nat, n: nat)
    requires size > 0 && WroteFile(s, t, f, pos, w, size)
    ensures WroteFile(s, Resized(t, f, n), f, pos, w, size)
  {
  }

  // Write a dirty slot back and mark it clean.
  ghost function Cleaned(s: Store, f: nat, k: nat): Store
    requires f < |s.files| && f < |s.chains| && k < |s.files[f].slots|
    requires s.files[f].slots[k].block < |s.chains[f]| && s.chains[f][s.files[f].slots[k].block] < |s.data|
  {
    var slot := s.files[f].slots[k];
    s.(data := s.data[s.chains[f][slot.block] := slot.cache],
       files := s.files[f := s.files[f].(slots := s.files[f].slots[k := slot.(status := Ready)])])
  }

  lemma CleanStore(s: Store, f: nat, k: nat, size: nat, start: nat)
    requires StoreOk(s, size, start) && f < |s.files|
    requires k < |s.files[f].slots| && s.files[f].slots[k].status.Dirty?
    ensures s.files[f].slots[k].block < |s.chains[f]| && s.files[f].allocMap == s.chains[f]
    ensures s.chains[f][s.files[f].slots[k].block] < |s.data|
    ensures StoreOk(Cleaned(s, f, k), size, start) && Grew(s, Cleaned(s, f, k), f)
  {
    FlushStore(s, f, k, size, start);
    var slot := s.files[f].slots[k];
    var t := s.(data := s.data[s.chains[f][slot.block] := slot.cache]);
    var file := s.files[f].(slots := s.files[f].slots[k := slot.(status := Ready)]);
    assert CacheOk(file, t.chains[f], t.contents[f], t.data, size) by {
      assert CacheOk(t.files[f], t.chains[f], t.contents[f], t.data, size);
      MarkReady(t.files[f], t.chains[f], t.contents[f], t.data, size, k);
    }
    RecacheStore(t, f, file, size, start);
    assert t.(files := t.files[f := file]) == Cleaned(s, f, k);
    GrewTransitive(s, t, Cleaned(s, f, k), f);
  }

  // Moving the round-robin pointer.
  lemma RotateStore(s: Store, f: nat, n: nat, size: nat, start: nat)
    requires StoreOk(s, size, start) && f < |s.files| && n <= MAX_CACHED_BLOCKS
    ensures StoreOk(s.(files := s.files[f := s.files[f].(overwritten := n)]), size, start)
    ensures Grew(s, s.(files := s.files[f := s.files[f].(overwritten := n)]), f)
  {
    assert CacheOk(s.files[f], s.chains[f], s.contents[f], s.data, size);
    RecacheStore(s, f, s.files[f].(overwritten := n), size, start);
  }

  // The slot that round robin overwrites next.
  function Victim(file: File): nat {
    if file.overwritten == MAX_CACHED_BLOCKS then 0 else file.overwritten
  }

  function Rotated(s: Store, f: nat): Store
    requires f < |s.files|
  {
    s.(files := s.files[f := s.files[f].(overwritten := Victim(s.files[f]) + 1)])
  }

  // The round-robin pointer moved on, and the victim's bytes, if dirty, on the device.
  function Evicted(s: Store, f: nat): Store
    requires f < |s.files| && f < |s.chains| && Victim(s.files[f]) < |s.files[f].slots|
    requires var slot := s.files[f].slots[Victim(s.files[f])];
             slot.status.Dirty? ==> slot.block < |s.chains[f]| && s.chains[f][slot.block] < |s.data|
  {
    var slot := s.files[f].slots[Victim(s.files[f])];
    var t := Rotated(s, f);
    if slot.status.Dirty? then t.(data := s.data[s.chains[f][slot.block] := slot.cache]) else t
  }

  // Slot `k` of file `f` can be reused: the device has its bytes if they were dirty.
  ghost predicate Reusable(s: Store, f: nat, k: int) {
    && 0 <= k && f < |s.files| == |s.chains| == |s.contents| && k < |s.files[f].slots|
    && (s.files[f].slots[k].status.Dirty? ==>
          && s.files[f].slots[k].block < |s.chains[f]| == |s.contents[f]|
          && s.chains[f][s.files[f].slots[k].block] < |s.data|
          && s.data[s.chains[f][s.files[f].slots[k].block]] == s.contents[f][s.files[f].slots[k].block])
  }

  lemma VictimFacts(s: Store, f: nat, size: nat, start: nat)
    requires StoreOk(s, size, start) && f < |s.files| && s.files[f].cached
    ensures |s.files| == |s.chains| == |s.contents| && Victim(s.files[f]) < |s.files[f].slots| == MAX_CACHED_BLOCKS
    ensures s.files[f].allocMap == s.chains[f] && |s.chains[f]| == |s.contents[f]|
    ensures var slot := s.files[f].slots[Victim(s.files[f])];
            slot.status.Dirty? ==> slot.block < |s.chains[f]| && s.chains[f][slot.block] < |s.data|
  {
    assert CacheOk(s.files[f], s.chains[f], s.contents[f], s.data, size);
  }

  lemma EvictStore(s: Store, f: nat, size: nat, start: nat)
    requires StoreOk(s, size, start) && f < |s.files| && s.files[f].cached
    requires f < |s.chains| && Victim(s.files[f]) < |s.files[f].slots|
    requires var slot := s.files[f].slots[Victim(s.files[f])];
             slot.status.Dirty? ==> slot.block < |s.chains[f]| && s.chains[f][slot.block] < |s.data|
    ensures StoreOk(Evicted(s, f), size, start) && Grew(s, Evicted(s, f), f)
    ensures Reusable(Evicted(s, f), f, Victim(s.files[f]))
    ensures Evicted(s, f).files[f].slots == s.files[f].slots && Evicted(s, f).contents == s.contents
  {
    hide StoreOk;
    var k, t := Victim(s.files[f]), Rotated(s, f);
    VictimFacts(s, f, size, start);
    RotateStore(s, f, k + 1, size, start);
    if s.files[f].slots[k].status.Dirty? {
      FlushStore(t, f, k, size, start);
      GrewTransitive(s, t, Evicted(s, f), f);
    }
  }

  // Block `b` read from the device into slot `k`.
  function Loaded(s: Store, f: nat, k: nat, b: nat): Store
    requires f < |s.files| && f < |s.chains| && k < |s.files[f].slots|
    requires b < |s.chains[f]| && s.chains[f][b] < |s.data|
  {
    s.(files := s.files[f := s.files[f].(slots := s.files[f].slots[k := Slot(b, Ready, s.data[s.chains[f][b]])])])
  }

  lemma LoadStore(s: Store, f: nat, k: nat, b: nat, size: nat, start: nat)
    requires StoreOk(s, size, start) && f < |s.files| && s.files[f].cached
    requires Reusable(s, f, k) && b < |s.chains[f]|
    requires forall t :: 0 <= t < |s.files[f].slots| && !s.files[f].slots[t].status.NotReady? ==>
               s.files[f].slots[t].block != b
    ensures s.files[f].allocMap == s.chains[f] && s.chains[f][b] < |s.data|
    ensures StoreOk(Loaded(s, f, k, b), size, start) && Grew(s, Loaded(s, f, k, b), f)
  {
    assert CacheOk(s.files[f], s.chains[f], s.contents[f], s.data, size);
    LoadSlot(s.files[f], s.chains[f], s.contents[f], s.data, size, k, b);
    RecacheStore(s, f, Loaded(s, f, k, b).files[f], size, start);
  }

  // A grown file leaves a reusable slot reusable.
  lemma ReusableGrown(s: Store, t: Store, f: nat, k: int)
    requires Reusable(s, f, k) && Grew(s, t, f) && t.data == s.data && t.files[f].slots == s.files[f].slots
    ensures |t.contents[f]| == |t.chains[f]| ==> Reusable(t, f, k)
  {
  }

  lemma ReadNothing(s: Store, f: nat, pos: nat, size: nat, start: nat)
    requires StoreOk(s, size, start) && f < |s.files|
    ensures ReadFile(s, s, f, pos, [], size)
  {
  }

  lemma UncachedSettled(s: Store, f: nat, size: nat, start: nat)
    requires StoreOk(s, size, start) && f < |s.files| && !s.files[f].cached
    ensures Settled(s.files[f])
  {
    assert CacheOk(s.files[f], s.chains[f], s.contents[f], s.data, size);
  }
}

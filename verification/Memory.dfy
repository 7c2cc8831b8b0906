// Physical pages, the heap and the address spaces, all on one bitmap of pages: mapping, unmapping,
// forking and freeing address spaces beside the blocks of the heap.

module Memory {
  import opened KernelModel
  import opened Ledger
  import opened PageTables
  import opened Pmm
  import opened Runs
  import opened SpaceModel

  // How an operation ends.  `NoMemory` is a failure that the code reports; `Panic` is the fork's;
  // `Stuck` is where the code goes on with a null pointer, or a search has gone astray at the end of
  // the bitmap.
  datatype Outcome = Done | NoMemory | Panic | Stuck

  // The record of an address space; what matters is that it fits a page.
  const PAGEMAP_SIZE: nat := 32

  class Machine {
    var mem: seq<Page>
    var bits: seq<bool>
    var cur: nat  // where the next search for pages starts, counted from the first page
    var allocs: map<nat, Alloc>
    var pml4: map<nat, nat>  // the root in the record of an address space, by the block of the record
    const kernelRoot: nat
    ghost var spaces: map<nat, Space>
    ghost var held: Held
    ghost const reserved: set<nat>

    ghost function St(): Kernel
      reads this
    {
      Kernel(mem, bits, cur, allocs, spaces)
    }

    ghost predicate Valid()
      reads this
    {
      && KernelOk(St(), held, reserved) && kernelRoot in reserved
      && RootsMatch(pml4, spaces)
    }

    // The pages in use from the start are reserved, the root of the kernel's tables among them.
    constructor (used: seq<bool>, root: nat)
      requires root < |used| && used[root]
      ensures Valid() && bits == used && mem == seq(|used|, _ => ZeroPage()) && allocs == map[] && spaces == map[]
      ensures cur == 0 && kernelRoot == root
    {
      mem, bits, cur := seq(|used|, _ => ZeroPage()), used, 0;
      allocs, pml4, spaces, held := map[], map[], map[], map[];
      kernelRoot := root;
      reserved := set i: nat | i < |used| && used[i];
    }

    ghost function Map(): Bitmap
      reads this`bits, this`cur
    {
      Bitmap(bits, cur)
    }

    // The free pages that searches still come to, and those they have passed.
    ghost function Free(): set<nat>
      reads this`bits, this`cur
    {
      Ahead(bits, cur)
    }

    ghost function Past(): set<nat>
      reads this`bits, this`cur
    {
      Behind(bits, cur)
    }

    ghost predicate Bound()
      reads this`mem, this`bits, this`cur
    {
      cur <= |bits| == |mem|
    }

    // ---------- pages ----------

    // Search from `cur` for `n` consecutive free pages and take the first such run.  At the end of the
    // bitmap the code goes on at page number `n`, still counting: below the bitmap for shorter runs than
    // `BASE`, at its first page for runs of `BASE`, and past some of its pages for longer ones.  The last
    // is taken as going astray here, although such a search may still come to a run that is free.
    method PmmAlloc(n: nat) returns (r: PageRun)
      requires n > 0 && cur <= |bits|
      modifies this`bits, this`cur
      ensures cur <= |bits| == |old(bits)|
      ensures r.Found? <==> Servable(old(Map()), n)
      ensures r.Found? ==> r.start == Start(old(Map()), n) && Map() == Taken(old(Map()), n) && cur == r.start + n
      ensures r.OutOfMemory? <==> CleanlyFails(old(Map()), n)
      ensures !r.Found? ==> bits == old(bits) && (n != BASE ==> cur == |bits|)
    {
      hide Scanning, ScanningAgain, Crosses, First;
      var left, i := n, 0;
      ghost var first, again, met := cur, false, false;
      ghost var t: nat := 0;
      ScanBegins(bits, cur, n);
      while i < |bits|
        invariant i <= |bits| && bits == old(bits) && cur <= |bits| && 0 < left <= n
        invariant Looking(bits, first, cur, n, n - left, t, again, met) && (again ==> first > 0)
        invariant if again then cur + |bits| == first + i else cur == first + i
        decreases |bits| - i
      {
        if cur == |bits| {
          ScanNone(bits, first, n, n - left);
          if n != BASE {
            return Wraps;
          }
          again, met, t := true, false, n - left;
          ScanReturns(bits, first, n, t);
          cur := 0;
        }
        if !bits[cur] && left == 1 {
          // The run is complete.
          FoundEither(bits, first, cur, n, t, again, met);
          cur := cur + 1;
          if cur < n {
            return Wraps;
          }
          SetBitmap(cur - n, n, true);
          return Found(cur - n);
        }
        StepEither(bits, first, cur, n, n - left, t, again, met);
        met := met || (again && bits[cur]);
        left := if bits[cur] then n else left - 1;
        cur := cur + 1;
        i := i + 1;
      }
      EndEither(bits, first, cur, n, n - left, t, again, met);
      r := OutOfMemory;
    }

    method SetBitmap(start: nat, n: nat, b: bool)
      requires start + n <= |bits|
      modifies this`bits
      ensures bits == Marked(old(bits), start, n, b)
    {
      var j := start;
      while j < start + n
        invariant start <= j <= start + n && |bits| == |old(bits)|
        invariant forall i :: 0 <= i < |bits| ==> bits[i] == if start <= i < j then b else old(bits)[i]
      {
        bits := bits[j := b];
        j := j + 1;
      }
    }

    // Give pages back.
    method PmmFree(start: nat, n: nat)
      requires start + n <= |bits|
      modifies this`bits
      ensures |bits| == |old(bits)| && FreePages(bits) == FreePages(old(bits)) + Run(start, start + n)
    {
      MarkedPages(bits, start, n, false);
      SetBitmap(start, n, false);
    }

    // Pages in a row, zeroed.
    method PmmAllocz(n: nat) returns (r: PageRun)
      requires MemOk(mem) && Bound() && n > 0
      modifies this`mem, this`bits, this`cur
      ensures MemOk(mem) && Bound() && |bits| == |old(bits)| == |mem|
      ensures r.Found? <==> Servable(old(Map()), n)
      ensures r.Found? ==>
                && r.start == Start(old(Map()), n) && Map() == Taken(old(Map()), n) && cur == r.start + n <= |mem|
                && (forall x :: 0 <= x < |mem| ==> mem[x] == if r.start <= x < r.start + n then ZeroPage() else old(mem)[x])
      ensures r.OutOfMemory? <==> CleanlyFails(old(Map()), n)
      ensures !r.Found? ==> mem == old(mem) && bits == old(bits) && (n != BASE ==> cur == |bits|)
    {
      hide Start, Marked, CleanlyFails, Taken, Servable;
      ghost var b := Map();
      r := PmmAlloc(n);
      if r.Found? {
        TakeRun(b, n);
        var i := r.start;
        while i < r.start + n
          invariant r.start <= i <= r.start + n <= |mem| == |old(mem)| == |bits| && Map() == Taken(b, n) && cur == r.start + n
          invariant forall x :: 0 <= x < |mem| ==> mem[x] == if r.start <= x < i then ZeroPage() else old(mem)[x]
        {
          mem := mem[i := ZeroPage()];
          i := i + 1;
        }
      }
    }

    // A single one.
    method AllocPage() returns (r: PageRun)
      requires MemOk(mem) && Bound()
      modifies this`mem, this`bits, this`cur
      ensures MemOk(mem) && Bound() && |bits| == |old(bits)| && cur >= old(cur)
      ensures (r.Found? <==> old(Free()) != {}) && (r.Found? <==> Servable(old(Map()), 1))
      ensures r.Found? ==>
                && r.start in old(Free()) && r.start in old(FreePages(bits)) && r.start < |old(mem)|
                && mem == old(mem)[r.start := ZeroPage()]
                && Free() == old(Free()) - {r.start} && Past() == old(Past()) && Map() == Taken(old(Map()), 1)
                && FreePages(bits) == old(FreePages(bits)) - {r.start}
      ensures !r.Found? ==> mem == old(mem) && bits == old(bits) && (r.OutOfMemory? <==> old(cur) == 0)
      ensures !r.Found? ==> Free() == {}
    {
      hide Taken, Start, Marked, Servable;
      TakeOne(Map());
      r := PmmAllocz(1);
    }

    // ---------- mapping ----------

    // The table below entry `i` of `table`, allocated and linked if the entry is absent.
    method EnsureTable(table: nat, i: nat, ghost root: nat, ghost tabs: map<Path, nat>, ghost top: nat, ghost c: Path)
      returns (r: Outcome, child: nat, ghost tabs': map<Path, nat>)
      requires Bound() && SpaceOk(mem, Free(), root, tabs, top) && 0 < |c| < LEVELS && Within(c, top)
      requires Up(c) in tabs && table == tabs[Up(c)] && i == Last(c)
      modifies this`mem, this`bits, this`cur
      ensures Bound() && |bits| == |old(bits)| && cur >= old(cur)
      ensures r.Done? <==> c in tabs || old(Free()) != {}
      ensures r.NoMemory? <==> c !in tabs && old(Free()) == {} && old(cur) == 0
      ensures r != Panic
      ensures r.Done? ==>
                && SpaceOk(mem, Free(), root, tabs', top) && Grew(old(Free()), tabs, Free(), tabs') && Past() == old(Past())
                && c in tabs' && child == tabs'[c] && tabs'.Keys == tabs.Keys + {c}
                && Kept(old(mem), mem, old(Free()) + Frames(tabs))
                && forall q :: Leaf(mem, tabs', q) == Leaf(old(mem), tabs, q)
      ensures r.Done? && c !in tabs ==>
                table < |mem| && i < |mem[table]| && mem[table][i] == child * 0x1000 + 7 && child in old(Free())
      ensures !r.Done? ==> tabs' == tabs && mem == old(mem) && bits == old(bits)
    {
      hide Leaf, Frames, TreeOk, Ahead, Behind, FreePages, Taken, Servable;
      tabs' := tabs;
      SpaceFacts(mem, Free(), root, tabs, top);
      PresentIsLinked(mem, root, tabs, top, c);
      if Present(mem[table][i]) {
        r, child := Done, FrameOf(mem[table][i]);
        assert tabs.Keys == tabs.Keys + {c};
      } else {
        ghost var free := Free();
        var f := AllocPage();
        r, child := if f.Found? then Done else if f.OutOfMemory? then NoMemory else Stuck, 0;
        if f.Found? {
          child := f.start;
          LinkNew(old(mem), free, root, tabs, top, c, child);
          mem := Stored(mem, table, i, Word(child, 7));
          tabs' := tabs[c := child];
        }
      }
    }

    // The three tables above a page, created where absent.  The code looks at the first allocation only.
    method EnsurePath(root: nat, q: Path, ghost tabs: map<Path, nat>, ghost top: nat)
      returns (r: Outcome, pt: nat, ghost tabs': map<Path, nat>)
      requires Bound() && SpaceOk(mem, Free(), root, tabs, top) && |q| == LEVELS && Within(q, top)
      modifies this`mem, this`bits, this`cur
      ensures Bound() && |bits| == |old(bits)| && cur >= old(cur)
      ensures r.Done? <==> RoomFor(tabs.Keys + Above(q), tabs, old(Free()))
      ensures r.NoMemory? <==> q[..1] !in tabs && old(Free()) == {} && old(cur) == 0
      ensures r != Panic
      ensures r.Done? ==>
                && SpaceOk(mem, Free(), root, tabs', top) && Grew(old(Free()), tabs, Free(), tabs') && Past() == old(Past())
                && q[..3] in tabs' && pt == tabs'[q[..3]] && tabs'.Keys == tabs.Keys + Above(q)
                && Kept(old(mem), mem, old(Free()) + Frames(tabs))
                && forall x :: Leaf(mem, tabs', x) == Leaf(old(mem), tabs, x)
      ensures r.NoMemory? ==> tabs' == tabs && mem == old(mem) && bits == old(bits)
    {
      hide SpaceOk, Leaf, Frames, Within, Kept, Grew, RoomFor, Ahead, Behind;
      PrefixFacts(q, top);
      SpaceFacts(mem, Free(), root, tabs, top);
      ghost var room, free := tabs.Keys + Above(q), Free();
      InAbove(q);
      var pdpt, pd;
      ghost var tabs1, tabs2;
      r, pdpt, tabs1 := EnsureTable(root, q[0], root, tabs, top, q[..1]);
      pt, tabs' := 0, tabs1;
      if !r.Done? {
        NoRoom(tabs, free, room, q[..1]);
        return;
      }
      ghost var mem1, free1 := mem, Free();
      RoomAfter(tabs, free, tabs1, free1, room, q[..1]);
      r, pd, tabs2 := EnsureTable(pdpt, q[1], root, tabs1, top, q[..2]);
      if !r.Done? {
        NoRoom(tabs1, free1, room, q[..2]);
        r := Stuck;
        return;
      }
      ghost var mem2, free2 := mem, Free();
      RoomAfter(tabs1, free1, tabs2, free2, room, q[..2]);
      r, pt, tabs' := EnsureTable(pd, q[2], root, tabs2, top, q[..3]);
      if !r.Done? {
        NoRoom(tabs2, free2, room, q[..3]);
        r := Stuck;
        return;
      }
      RoomAfter(tabs2, free2, tabs', Free(), room, q[..3]);
      GrewTwice(old(mem), free, tabs, mem1, free1, tabs1, mem2, free2, tabs2);
      GrewTwice(old(mem), free, tabs, mem2, free2, tabs2, mem, Free(), tabs');
      ThreeKeys(tabs.Keys, tabs1.Keys, tabs2.Keys, tabs'.Keys, q);
      RoomFilled(room, tabs', Free());
    }

    // Map the page at an address to a frame.
    method MapPage(root: nat, frame: nat, virt: bv64, flags: nat, ghost tabs: map<Path, nat>, ghost top: nat)
      returns (r: Outcome, ghost tabs': map<Path, nat>)
      requires Bound() && SpaceOk(mem, Free(), root, tabs, top) && Within(PathOf(virt), top) && flags < PAGE
      modifies this`mem, this`bits, this`cur
      ensures Bound() && |bits| == |old(bits)| && r != Panic && cur >= old(cur)
      ensures r.Done? <==> |Above(PathOf(virt)) - tabs.Keys| <= |old(Free())|
      ensures r.NoMemory? <==> PathOf(virt)[..1] !in tabs && old(Free()) == {} && old(cur) == 0
      ensures r.Done? ==>
                var q := PathOf(virt);
                && SpaceOk(mem, Free(), root, tabs', top) && Grew(old(Free()), tabs, Free(), tabs') && Past() == old(Past())
                && Leaf(mem, tabs', q) == Word(frame, flags) == frame * 0x1000 + flags
                && SameLeaves(old(mem), tabs, mem, tabs', q)
                && tabs'.Keys == tabs.Keys + Above(q) && Kept(old(mem), mem, old(Free()) + Frames(tabs))
      ensures r.NoMemory? ==> mem == old(mem) && bits == old(bits) && tabs' == tabs
    {
      hide TreeOk, Leaf, Frames, Within, PathOf, Above, RoomFor, Ahead, Behind;
      var q := PathOf(virt);
      PrefixFacts(q, top);
      RoomExactly(tabs, Free(), q);
      var pt;
      r, pt, tabs' := EnsurePath(root, q, tabs, top);
      if r.Done? {
        StoreLeaf(mem, root, tabs', top, q, Word(frame, flags));
        FrameIn(tabs', q[..3]);
        mem := Stored(mem, pt, q[3], Word(frame, flags));
      }
    }

    // The page table of a page, if its three levels are present.
    method FindTable(root: nat, q: Path, ghost tabs: map<Path, nat>, ghost top: nat) returns (ok: bool, pt: nat)
      requires TreeOk(mem, root, tabs, top) && |q| == LEVELS && Within(q, top)
      ensures ok == (q[..3] in tabs) && (ok ==> pt == tabs[q[..3]] < |mem| && |mem[pt]| == ENTRIES)
    {
      hide TreeOk;
      PrefixFacts(q, top);
      ok, pt := true, root;
      RootIn(mem, root, tabs, top);
      var n := 0;
      while n < 3
        invariant 0 <= n <= 3 && q[..n] in tabs && pt == tabs[q[..n]]
      {
        PresentIsLinked(mem, root, tabs, top, q[..n + 1]);
        if !Present(mem[pt][q[n]]) {
          ghost var k: nat := n + 1;
          NoTableBelow(mem, root, tabs, top, q, k);
          return false, 0;
        }
        pt := FrameOf(mem[pt][q[n]]);
        n := n + 1;
      }
      TableInMemory(mem, root, tabs, top, q[..3]);
    }

    // Change the flags of a page; fails if it has no page table.
    method RemapPage(root: nat, virt: bv64, flags: nat, ghost tabs: map<Path, nat>, ghost top: nat) returns (ok: bool)
      requires TreeOk(mem, root, tabs, top) && Within(PathOf(virt), top) && flags < PAGE
      modifies this`mem
      ensures TreeOk(mem, root, tabs, top) && ok == (PathOf(virt)[..3] in tabs)
      ensures SameLeaves(old(mem), tabs, mem, tabs, PathOf(virt)) && Kept(old(mem), mem, Frames(tabs))
      ensures Leaf(mem, tabs, PathOf(virt))
              == if ok then Word(FrameOf(Leaf(old(mem), tabs, PathOf(virt))), flags) else 0
      ensures ok ==> Leaf(mem, tabs, PathOf(virt)) == Leaf(old(mem), tabs, PathOf(virt)) / 0x1000 * 0x1000 + flags
    {
      hide PathOf;
      var q := PathOf(virt);
      var pt;
      ok, pt := FindTable(root, q, tabs, top);
      if ok {
        PrefixFacts(q, top);
        FrameIn(tabs, q[..3]);
        StoreLeaf(mem, root, tabs, top, q, Word(FrameOf(mem[pt][q[3]]), flags));
        mem := Stored(mem, pt, q[3], Word(FrameOf(mem[pt][q[3]]), flags));
      }
    }

    // Unmap a page.  The code frees a page table that becomes empty but leaves it linked, so the
    // address space keeps all its tables exactly when the table still has a present entry.  Its scans
    // of the two tables above stop at the entry that is still there.
    method UnmapPage(root: nat, virt: bv64, ghost tabs: map<Path, nat>, ghost top: nat) returns (ok: bool)
      requires Bound() && SpaceOk(mem, FreePages(bits), root, tabs, top) && Within(PathOf(virt), top)
      modifies this`mem, this`bits
      ensures Bound() && TreeOk(mem, root, tabs, top) && ok == (PathOf(virt)[..3] in tabs)
      ensures SameLeaves(old(mem), tabs, mem, tabs, PathOf(virt)) && Leaf(mem, tabs, PathOf(virt)) == 0
      ensures !ok ==> mem == old(mem) && bits == old(bits)
      ensures ok ==> tabs[PathOf(virt)[..3]] < |old(mem)| && |old(mem)[tabs[PathOf(virt)[..3]]]| == ENTRIES
      ensures ok ==>
                var q := PathOf(virt);
                var pt := tabs[q[..3]];
                && FreePages(bits) == old(FreePages(bits)) + (if MapsAnother(old(mem)[pt], q[3]) then {} else {pt})
                && (Frames(tabs) !! FreePages(bits) <==> MapsAnother(old(mem)[pt], q[3]))
                && Kept(old(mem), mem, {pt})
    {
      hide PathOf, Run, FreePages;
      var q := PathOf(virt);
      var pt;
      ok, pt := FindTable(root, q, tabs, top);
      if !ok {
        return;
      }
      PrefixFacts(q, top);
      FrameIn(tabs, q[..3]);
      StoreLeaf(mem, root, tabs, top, q, 0);
      mem := Stored(mem, pt, q[3], 0);
      var i := 0;
      while i < ENTRIES
        invariant 0 <= i <= ENTRIES
        invariant forall j :: 0 <= j < i ==> !Present(mem[pt][j])
      {
        if Present(mem[pt][i]) {
          assert i != q[3] && Present(old(mem)[pt][i]);
          return;
        }
        i := i + 1;
      }
      forall j | 0 <= j < ENTRIES && j != q[3]
        ensures !Present(old(mem)[pt][j])
      {
        assert mem[pt][j] == old(mem)[pt][j];
      }
      PmmFree(pt, 1);
      assert pt in Frames(tabs) && pt in Run(pt, pt + 1);
      assert Run(pt, pt + 1) == {pt};
    }

    // ---------- forking ----------

    // Copy page `q` of the parent to the next frame of the pool and map it in the child.
    method CopyPage(word: nat, q: Path, root: nat, base: nat, ptr: nat,
                    ghost mem0: seq<Page>, ghost free0: set<nat>, ghost oroot: nat, ghost otabs: map<Path, nat>,
                    ghost pages: set<Path>, ghost ntabs: map<Path, nat>, ghost copied: map<Path, nat>)
      returns (r: Outcome, ghost ntabs': map<Path, nat>)
      requires Bound() && ParentOk(mem0, free0, oroot, otabs, 256) && PagesOf(mem0, otabs, pages)
      requires ForkOk(mem0, free0, otabs, 256, mem, Free(), root, ntabs, copied, base)
      requires IsPage(q, 256) && q !in copied && ptr == |copied| < POOL && q[..3] in otabs
      requires word == Leaf(mem0, otabs, q) && Present(word)
      modifies this`mem, this`bits, this`cur
      ensures Bound() && |bits| == |old(bits)| && (r.Done? || r.Stuck?)
      ensures r.Done? ==> Past() == old(Past())
      ensures r.Done? ==> ForkOk(mem0, free0, otabs, 256, mem, Free(), root, ntabs', copied[q := base + ptr], base)
      ensures r.Stuck? ==> |Needed(pages)| + POOL > |free0|
    {
      hide TreeOk, Leaf, Frames, Within, CopiesOk, PoolOk, Kept, Word, IsPage, ParentOk, SameLeaves, PagesOf, Needed, Above,
        PathOf, AddressOf, Ahead, Behind;
      PageLength(q, 256);
      PageIndices(q, 256);
      KeptLength(mem0, mem, free0);
      ParentPage(mem0, free0, oroot, otabs, 256, mem, q);
      PoolFrame(|mem|, free0, Free(), ntabs, base, base + ptr);
      CopiedPages(mem0, free0, otabs, mem, Free(), root, ntabs, copied, base, pages);
      InPages(mem0, otabs, pages, q);
      ghost var mem1, free1 := mem, Free();
      FillPool(mem, Free(), root, ntabs, 256, base + ptr, FrameOf(word));
      mem := mem[base + ptr := mem[FrameOf(word)]];
      ghost var filled := mem;
      r, ntabs' := MapPage(root, base + ptr, AddressOf(q), FlagsOf(word), ntabs, 256);
      if r.Done? {
        CopyStep(mem0, free0, oroot, otabs, 256, mem1, free1, root, ntabs, copied, base, q, filled, mem, Free(), ntabs');
      } else {
        TooManyTables(mem0, free0, otabs, mem1, free1, root, ntabs, copied, base, pages, q);
        r := Stuck;
      }
    }

    // The page at entry `i` of the page table at `p`: copied, unless the pool is used up.
    method ForkPage(word: nat, p: Path, i: nat, root: nat, base: nat, ptr: nat,
                    ghost mem0: seq<Page>, ghost free0: set<nat>, ghost oroot: nat, ghost otabs: map<Path, nat>,
                    ghost pages: set<Path>, ghost ntabs: map<Path, nat>, ghost copied0: map<Path, nat>,
                    ghost copied: map<Path, nat>)
      returns (r: Outcome, ptr': nat, ghost ntabs': map<Path, nat>, ghost copied': map<Path, nat>)
      requires Bound() && ParentOk(mem0, free0, oroot, otabs, 256) && PagesOf(mem0, otabs, pages)
      requires ForkOk(mem0, free0, otabs, 256, mem, Free(), root, ntabs, copied, base) && ptr == |copied|
      requires |p| == 3 && p in otabs && Within(p, 256) && i < ENTRIES
      requires otabs[p] < |mem| && |mem[otabs[p]]| == ENTRIES && word == mem[otabs[p]][i] && Present(word)
      requires Extends(copied0, copied, p, i) && Covered(mem0, otabs, p, i, copied, 256)
      requires forall q :: q in copied0 ==> !Under(p, q)
      modifies this`mem, this`bits, this`cur
      ensures Bound() && |bits| == |old(bits)| && !r.NoMemory?
      ensures r.Done? ==>
                && ForkOk(mem0, free0, otabs, 256, mem, Free(), root, ntabs', copied', base) && ptr' == |copied'|
                && Past() == old(Past())
                && Extends(copied0, copied', p, i + 1) && Covered(mem0, otabs, p, i + 1, copied', 256)
      ensures r.Panic? ==> |pages| > POOL
      ensures r.Stuck? ==> |Needed(pages)| + POOL > |free0|
    {
      hide ForkOk, ParentOk, Covered, Extends, Leaf, IsPage, Within, TreeOk, Under, PagesOf, Needed, Present, Ahead, Behind;
      ptr', ntabs', copied' := ptr, ntabs, copied;
      ForkEntry(mem0, free0, oroot, otabs, mem, Free(), root, ntabs, copied, base, p, i);
      var page := p + [i];
      SelfUnder(page);
      NotYet(copied0, copied, p, i, page);
      if ptr == POOL {
        CopiedPages(mem0, free0, otabs, mem, Free(), root, ntabs, copied, base, pages);
        InPages(mem0, otabs, pages, page);
        TooManyPages(copied, pages, page);
        r := Panic;
        return;
      }
      r, ntabs' := CopyPage(word, page, root, base, ptr, mem0, free0, oroot, otabs, pages, ntabs, copied);
      if r.Done? {
        copied' := copied[page := base + ptr];
        PageStep(mem0, oroot, otabs, copied0, copied, p, i, base + ptr);
        ptr' := ptr + 1;
      }
    }

    // Copy every mapped page below the parent's table at `p`: one loop per level.  It stops, for a
    // panic, when the pool is used up and a page is left.
    method ForkBelow(table: nat, depth: nat, p: Path, root: nat, base: nat, ptr: nat,
                     ghost mem0: seq<Page>, ghost free0: set<nat>, ghost oroot: nat, ghost otabs: map<Path, nat>,
                     ghost pages: set<Path>, ghost ntabs: map<Path, nat>, ghost copied: map<Path, nat>)
      returns (r: Outcome, ptr': nat, ghost ntabs': map<Path, nat>, ghost copied': map<Path, nat>)
      requires Bound() && ParentOk(mem0, free0, oroot, otabs, 256) && PagesOf(mem0, otabs, pages)
      requires ForkOk(mem0, free0, otabs, 256, mem, Free(), root, ntabs, copied, base)
      requires depth == |p| && p in otabs && |p| < LEVELS && table == otabs[p] && ptr == |copied|
      requires Within(p, 256) && forall q :: q in copied ==> !Under(p, q)
      modifies this`mem, this`bits, this`cur
      ensures Bound() && |bits| == |old(bits)| && !r.NoMemory?
      ensures r.Done? ==>
                && ForkOk(mem0, free0, otabs, 256, mem, Free(), root, ntabs', copied', base) && ptr' == |copied'|
                && Past() == old(Past())
                && Extends(copied, copied', p, ENTRIES) && Covered(mem0, otabs, p, ENTRIES, copied', 256)
      ensures r.Panic? ==> |pages| > POOL
      ensures r.Stuck? ==> |Needed(pages)| + POOL > |free0|
      decreases LEVELS - |p|
    {
      hide ForkOk, ParentOk, Covered, Extends, Leaf, IsPage, Within, TreeOk, Under, Present, FrameOf, PagesOf, Needed, Ahead,
        Behind;
      r, ptr', ntabs', copied' := Done, ptr, ntabs, copied;
      var limit := if depth == 0 then 256 else ENTRIES;
      ForkStarts(mem0, otabs, p, copied, 256);
      var i := 0;
      while i < limit
        invariant i <= limit && Bound() && |bits| == |old(bits)| && r.Done? && Past() == old(Past())
        invariant ForkOk(mem0, free0, otabs, 256, mem, Free(), root, ntabs', copied', base) && ptr' == |copied'|
        invariant Extends(copied, copied', p, i) && Covered(mem0, otabs, p, i, copied', 256)
      {
        ForkEntry(mem0, free0, oroot, otabs, mem, Free(), root, ntabs', copied', base, p, i);
        var word := mem[table][i];
        var child := p + [i];
        ghost var mid := copied';
        if Present(word) && depth == 3 {
          r, ptr', ntabs', copied' :=
            ForkPage(word, p, i, root, base, ptr', mem0, free0, oroot, otabs, pages, ntabs', copied, copied');
          if !r.Done? {
            return;
          }
        } else if Present(word) {
          NoneYet(copied, copied', p, i);
          r, ptr', ntabs', copied' :=
            ForkBelow(FrameOf(word), depth + 1, child, root, base, ptr', mem0, free0, oroot, otabs, pages, ntabs', copied');
          if !r.Done? {
            return;
          }
          ExtendsNext(copied, mid, copied', p, i);
          BelowStep(mem0, oroot, otabs, mid, copied', p, i);
        } else {
          ExtendsWider(copied, copied', p, i);
          CoverNext(mem0, oroot, otabs, p, i, copied', 256);
        }
        i := i + 1;
      }
      CoveredAll(mem0, otabs, p, i, copied', 256);
      ExtendsUpTo(copied, copied', p, i);
    }

    // Share the kernel's half of the address space.
    method MapKernel(root: nat, kernelRoot: nat, ghost mem0: seq<Page>, ghost free0: set<nat>, ghost free: set<nat>,
                     ghost otabs: map<Path, nat>, ghost ntabs: map<Path, nat>, ghost copied: map<Path, nat>)
      requires SpaceOk(mem, free, root, ntabs, 256) && ForkedFrom(mem0, otabs, mem, ntabs, 256, copied)
      requires FramesConserved(free0, free, ntabs, copied) && Kept(mem0, mem, free0)
      requires MemOk(mem0) && kernelRoot < |mem0| && kernelRoot !in free0
      modifies this`mem
      ensures SpaceOk(mem, free, root, ntabs, 256) && ForkedFrom(mem0, otabs, mem, ntabs, 256, copied)
      ensures Kept(mem0, mem, free0) && root < |mem| && |mem[root]| == ENTRIES
      ensures forall i :: 256 <= i < ENTRIES ==> mem[root][i] == mem0[kernelRoot][i]
    {
      hide SpaceOk, ForkedFrom;
      RootNotCopied(mem, free0, free, root, ntabs, copied);
      UpperKeepsFork(mem0, otabs, mem, free, root, ntabs, copied, 256, 0);
      var i := 256;
      while i < ENTRIES
        invariant 256 <= i <= ENTRIES && root < |mem| && |mem[root]| == ENTRIES
        invariant SpaceOk(mem, free, root, ntabs, 256) && ForkedFrom(mem0, otabs, mem, ntabs, 256, copied)
        invariant Kept(mem0, mem, free0)
        invariant forall j :: 256 <= j < i ==> mem[root][j] == mem0[kernelRoot][j]
      {
        UpperKeepsFork(mem0, otabs, mem, free, root, ntabs, copied, i, mem[kernelRoot][i]);
        mem := Stored(mem, root, i, mem[kernelRoot][i]);
        i := i + 1;
      }
    }

    // Give back the rest of the pool and share the kernel's half.
    method FinishFork(root: nat, kernelRoot: nat, base: nat, ptr: nat, ghost mem0: seq<Page>, ghost free0: set<nat>,
                      ghost otabs: map<Path, nat>, ghost ntabs: map<Path, nat>, ghost copied: map<Path, nat>)
      requires Bound() && ForkOk(mem0, free0, otabs, 256, mem, Free(), root, ntabs, copied, base) && ptr == |copied|
      requires Covered(mem0, otabs, [], ENTRIES, copied, 256) && Past() !! free0
      requires MemOk(mem0) && kernelRoot < |mem0| && kernelRoot !in free0 + Past()
      modifies this`mem, this`bits
      ensures Bound() && |bits| == |old(bits)|
      ensures SpaceOk(mem, FreePages(bits), root, ntabs, 256) && ForkedFrom(mem0, otabs, mem, ntabs, 256, copied)
      ensures FramesConserved(free0 + old(Past()), FreePages(bits), ntabs, copied) && Kept(mem0, mem, free0 + old(Past()))
      ensures root < |mem| && |mem[root]| == ENTRIES
      ensures forall i :: 256 <= i < ENTRIES ==> mem[root][i] == mem0[kernelRoot][i]
    {
      hide ForkOk, Covered, SpaceOk, ForkedFrom, Run, FramesConserved, Kept, FreePages, Ahead, Behind;
      PoolInside(mem0, free0, otabs, mem, Free(), root, ntabs, copied, base);
      ghost var past, free, rest := Past(), Free(), Run(base + ptr, base + POOL);
      AllCopied(mem0, free0, otabs, mem, Free(), root, ntabs, copied, base);
      PoolReturned(mem0, free0, otabs, mem, Free(), root, ntabs, copied, base);
      ForkKept(mem0, free0, otabs, 256, mem, Free(), root, ntabs, copied, base);
      FreeSplit(bits, cur);
      FramesBeside(past, free0, free + rest, ntabs, copied);
      PmmFree(base + ptr, POOL - ptr);
      assert FreePages(bits) == past + (free + rest);
      FreeBelowLength(bits);
      SpaceWithPast(mem, past, free0, free + rest, root, ntabs, copied);
      KeptMore(mem0, mem, free0, past);
      assert past + free0 == free0 + past;
      MapKernel(root, kernelRoot, mem0, free0 + past, FreePages(bits), otabs, ntabs, copied);
      KeptLength(mem0, mem, free0 + past);
    }

    // Fork the address space at `oroot` into the one at `root`, which is still empty.  The code
    // checks neither the pool nor the tables.
    method ForkInto(root: nat, oroot: nat, kernelRoot: nat, ghost otabs: map<Path, nat>, ghost pages: set<Path>)
      returns (r: Outcome, ghost ntabs: map<Path, nat>, ghost copied: map<Path, nat>)
      requires Bound() && root < |mem| && mem[root] == ZeroPage() && root !in FreePages(bits)
      requires ParentOk(mem, FreePages(bits) + {root}, oroot, otabs, 256) && PagesOf(mem, otabs, pages)
      requires kernelRoot < |mem| && kernelRoot != root && kernelRoot !in FreePages(bits)
      modifies this`mem, this`bits, this`cur
      ensures Bound() && |bits| == |old(bits)| && !r.NoMemory?
      ensures r.Done? <==> TablesSuffice(old(Map()), pages) && |pages| <= POOL
      ensures TablesSuffice(old(Map()), pages) ==> (r.Panic? <==> |pages| > POOL)
      ensures r.Done? ==>
                && SpaceOk(mem, FreePages(bits), root, ntabs, 256) && ForkedFrom(old(mem), otabs, mem, ntabs, 256, copied)
                && FramesConserved(old(FreePages(bits)) + {root}, FreePages(bits), ntabs, copied)
                && Kept(old(mem), mem, old(FreePages(bits)) + {root})
                && MemOk(old(mem)) && root < |mem| && |mem[root]| == ENTRIES
                && copied.Keys == pages
                && forall i :: 256 <= i < ENTRIES ==> mem[root][i] == old(mem)[kernelRoot][i]
    {
      hide ForkOk, Covered, Extends, Leaf, IsPage, TreeOk, SpaceOk, ForkedFrom, Run, CopyOk, FramesConserved,
        ParentOk, Under, Kept, FreePages, Ahead, Behind, Taken, Servable, CleanlyFails, Start, PagesOf, Needed, Within;
      ghost var mem0, whole := mem, FreePages(bits);
      ParentTree(mem, whole + {root}, oroot, otabs, 256);
      RootIn(mem, oroot, otabs, 256);
      ParentMem(mem, oroot, otabs, 256);
      ntabs, copied := map[], map[];
      PoolTaken(Map(), root);
      var pool := PmmAlloc(POOL);
      if !pool.Found? {
        r := Stuck;
        return;
      }
      var base := pool.start;
      ghost var free0 := Free() + {root} + Run(base, base + POOL);
      ghost var past := Past();
      assert free0 + past == whole + {root};
      ParentLess(mem, free0, whole + {root}, oroot, otabs, 256);
      ForkBegins(mem0, free0, oroot, otabs, mem, Free(), root, base);
      FreeZeroSize(Free(), root, base, free0);
      RootWithin(256);
      var ptr;
      ghost var none: map<Path, nat> := map[];
      ghost var roots: map<Path, nat> := map[[] := root];
      r, ptr, ntabs, copied := ForkBelow(oroot, 0, [], root, base, 0, mem0, free0, oroot, otabs, pages, roots, none);
      if r.Done? {
        EnoughOfBoth(mem0, free0, otabs, mem, Free(), root, ntabs, copied, base, pages);
        FinishFork(root, kernelRoot, base, ptr, mem0, free0, otabs, ntabs, copied);
      }
    }

    // ---------- the heap ----------

    // A zeroed block of `size` bytes on pages of its own.
    method Kalloc(size: nat) returns (r: Outcome, p: nat)
      requires Valid()
      modifies this`bits, this`cur, this`allocs, this`held
      ensures r.Done? <==> Servable(old(Map()), PagesFor(size) + 1)
      ensures r.NoMemory? <==> CleanlyFails(old(Map()), PagesFor(size) + 1)
      ensures r != Panic && Bound() && |bits| == |old(bits)|
      ensures r.Done? ==>
                && Valid() && p !in old(allocs) && p !in spaces && OthersSame(old(St()), St(), p)
                && allocs == old(allocs)[p := Pmm.Zeroed(size)] && Map() == Taken(old(Map()), PagesFor(size) + 1)
                && 1 <= p && BlockPages(p, allocs[p]) <= old(FreePages(bits))
                && FreePages(bits) == old(FreePages(bits)) - BlockPages(p, allocs[p])
      ensures r.NoMemory? ==> Valid() && p == 0 && allocs == old(allocs) && bits == old(bits)
    {
      hide RootsMatch, BlockPages, FreeRun, Marked, KernelOk, FreePages, Ahead, Behind, Taken, Start, Servable, CleanlyFails,
        Zeros, OthersSame;
      var pages := size / PAGE_SIZE;
      if size % PAGE_SIZE != 0 {
        pages := pages + 1;
      }
      KernelBound(St(), held, reserved);
      ghost var k := St();
      var f := PmmAlloc(pages + 1);
      if f.Found? {
        TakeRun(k.Map(), pages + 1);
        r, p := Done, f.start + 1;
        TakenIs(k.Map(), pages + 1);
        BlockAdded(k, held, reserved, f.start, Pmm.Zeroed(size), cur);
        allocs := allocs[p := Alloc(pages, size, Zeros(pages * PAGE_SIZE))];
        held := held[BlockAt(p) := BlockPages(p, Pmm.Zeroed(size))];
      } else {
        KernelMoved(k, held, reserved, cur);
        r, p := if f.OutOfMemory? then NoMemory else Stuck, 0;
      }
    }

    // Giving a block back frees exactly its pages.
    method Kfree(p: nat)
      requires Valid() && p in allocs && p !in spaces
      modifies this`bits, this`allocs, this`held
      ensures Valid() && OthersSame(old(St()), St(), p) && allocs == old(allocs) - {p} && |bits| == |old(bits)|
      ensures 1 <= p && BlockPages(p, old(allocs)[p]) !! old(FreePages(bits))
      ensures FreePages(bits) == old(FreePages(bits)) + BlockPages(p, old(allocs)[p])
    {
      hide KernelOk, FreePages, OthersSame;
      BlockDropped(St(), held, reserved, p);
      SetBitmap(p - 1, allocs[p].pages + 1, false);
      allocs := allocs - {p};
      held := held - {BlockAt(p)};
    }

    // Move the block at `p` to pages for `size` bytes, with the first bytes, up to the smaller size.
    method MoveBlock(p: nat, size: nat) returns (r: Outcome, q: nat)
      requires Valid() && p in allocs && p !in spaces
      modifies this`bits, this`cur, this`allocs, this`held
      ensures r.Done? <==> Servable(old(Map()), PagesFor(size) + 1)
      ensures r.NoMemory? <==> CleanlyFails(old(Map()), PagesFor(size) + 1)
      ensures r != Panic && Bound()
      ensures r.NoMemory? ==> Valid() && q == 0 && Unchanged(old(St()), St())
      ensures r.Done? ==> Valid() && OthersSame(old(St()), St(), p) && |bits| == |old(bits)|
      ensures r.Done? ==> q != 0 && BlockResized(old(St()), St(), p, size, q)
    {
      hide KernelOk, RootsMatch, OthersSame, FreePages, Ahead, Taken, Servable, CleanlyFails, BlockPages, BlockOk, Zeroed;
      ghost var k, held0 := St(), held;
      NoNullBlock(k, held, reserved, p);
      var block := allocs[p];
      r, q := Kalloc(size);
      if !r.Done? {
        return;
      }
      ghost var k1 := St();
      ZeroedIs(size);
      var n := if block.size > size then size else block.size;
      CopyIs(block, allocs[q], n);
      var copy := allocs[q].(data := block.data[..n] + allocs[q].data[n..]);
      BlockChanged(k1, held, reserved, q, copy);
      allocs := allocs[q := copy];
      ghost var k2 := St();
      Kfree(p);
      BlockMoved(k, held0, reserved, k1, k2, St(), p, q);
    }

    // Resizing keeps the first bytes, up to the smaller of the two sizes.  It moves the block unless the
    // number of its pages stays the same.
    method Krealloc(p: nat, size: nat) returns (r: Outcome, q: nat)
      requires Valid() && (p != 0 ==> p in allocs && p !in spaces)
      modifies this`bits, this`cur, this`allocs, this`held
      ensures r.Done? <==> !Moves(old(allocs), p, size) || Servable(old(Map()), PagesFor(size) + 1)
      ensures r.NoMemory? <==> Moves(old(allocs), p, size) && CleanlyFails(old(Map()), PagesFor(size) + 1)
      ensures r != Panic && Bound()
      ensures r.NoMemory? ==> Valid() && q == 0 && Unchanged(old(St()), St())
      ensures r.Done? ==> Valid() && OthersSame(old(St()), St(), p) && |bits| == |old(bits)|
      ensures r.Done? && p != 0 && size == 0 ==> q == 0 && allocs == old(allocs) - {p}
      ensures r.Done? && (p == 0 || size != 0) ==> q != 0 && BlockResized(old(St()), St(), p, size, q)
    {
      hide KernelOk, RootsMatch, OthersSame, FreePages, Ahead, Taken, Servable, CleanlyFails, BlockPages, Zeroed;
      ghost var k, held0 := St(), held;
      KernelBound(k, held, reserved);
      NoNullBlock(k, held, reserved, p);
      if p == 0 {
        r, q := Kalloc(size);
        if r.Done? {
          ZeroedIs(size);
          NobodyThere(k, held0, reserved, St(), q, 0);
        }
        return;
      }
      if size == 0 {
        Kfree(p);
        return Done, 0;
      }
      var block := allocs[p];
      SamePages(block.size, size);
      if (block.size + PAGE_SIZE - 1) / PAGE_SIZE == (size + PAGE_SIZE - 1) / PAGE_SIZE {
        BlockChanged(St(), held, reserved, p, block.(size := size));
        allocs := allocs[p := block.(size := size)];
        BlockRoom(allocs[p]);
        KernelBound(St(), held, reserved);
        return Done, p;
      }
      r, q := MoveBlock(p, size);
    }

    // ---------- address spaces ----------

    // A record in the heap and a zeroed root, mapping nothing.
    method NewAddressSpace() returns (r: Outcome, p: nat)
      requires Valid()
      modifies this
      ensures r.Done? <==> Serves(old(Map()), [2, 1])
      ensures r.NoMemory? <==> CleanlyFails(old(Map()), 2)
      ensures r != Panic && Bound() && |bits| == |old(bits)|
      ensures r.NoMemory? ==> Valid() && St() == old(St()).(cur := cur)
      ensures r.Done? ==>
                && Valid() && p !in old(allocs) && p in allocs && p in spaces && OthersSame(old(St()), St(), p)
                && spaces == old(spaces)[p := spaces[p]] && allocs == old(allocs)[p := allocs[p]]
                && spaces[p].data == map[] && spaces[p].tabs == map[[] := spaces[p].root]
                && 1 <= p && Map() == After(old(Map()), [2, 1]) && Kept(old(mem), mem, old(FreePages(bits)))
                && spaces[p].root < |mem| && mem[spaces[p].root] == ZeroPage()
                && spaces[p].root in old(FreePages(bits))
                && NewPages(old(FreePages(bits)), FreePages(bits), BlockPages(p, allocs[p]) + {spaces[p].root})
    {
      hide RootsMatch, KernelOk, FreePages, Ahead, Behind, Taken, Servable, OthersSame, BlockPages, Owned, SpaceFine, SpaceOk;
      KernelBound(St(), held, reserved);
      TwoSearches(Map());
      r, p := Kalloc(PAGEMAP_SIZE);
      if !r.Done? {
        return;
      }
      ghost var k := St();
      KernelBound(k, held, reserved);
      var root := AllocPage();
      if !root.Found? {
        // The search did not start at the first page, so it cannot have failed cleanly.
        r := Stuck;
        return;
      }
      ghost var s := Space(root.start, map[[] := root.start], map[]);
      EmptySpace(mem, root.start);
      ZeroKept(k.mem, FreePages(k.bits), root.start);
      SpaceAdded(k, held, reserved, p, s, mem, bits, cur);
      RootsMore(pml4, spaces, p, s);
      pml4 := pml4[p := root.start];
      spaces := spaces[p := s];
      held := held[SpaceAt(p) := Owned(s)];
      OthersTwice(old(St()), k, St(), p);
      KeptAgain(old(mem), mem, FreePages(k.bits), old(FreePages(bits)));
    }

    // Map the first of the pages just taken and zeroed.
    method MapFresh(p: nat, f: nat, virt: bv64, ghost left: nat, ghost k: Kernel, ghost h: Held)
      returns (r: Outcome, ghost k': Kernel, ghost h': Held)
      requires Mapping(k, h, reserved, p, mem, bits, cur, f, left) && left > 0 && p in pml4 && pml4[p] == k.spaces[p].root
      requires Within(PathOf(virt), 256) && PathOf(virt) !in k.spaces[p].data
      modifies this`mem, this`bits, this`cur
      ensures Bound() && |bits| == |old(bits)| && r != Panic && cur >= old(cur) && (r.NoMemory? ==> old(cur) == 0)
      ensures r.Done? <==> Missing(PathOf(virt), k.spaces[p].tabs) <= |old(Free())|
      ensures r.Done? ==>
                var q := PathOf(virt);
                && p in k'.spaces && Mapping(k', h', reserved, p, mem, bits, cur, f + 1, left - 1)
                && PageGiven(k, k', p, q) && k'.spaces[p].data[q] == f && |mem| == |old(mem)|
                && k'.spaces[p].tabs.Keys == k.spaces[p].tabs.Keys + Above(q)
                && |Free()| + |k'.spaces[p].tabs| == |old(Free())| + |k.spaces[p].tabs|
    {
      hide Mapping, SameLeaves, PageGiven, IsPage, Ahead, Behind, Owned, SpaceOk, Leaf, Above, PathOf, Within, MemOk, Frames,
        Grew, Kept, FreshKernel;
      ghost var q := PathOf(virt);
      FreshReady(k, h, reserved, p, mem, bits, cur, f, left);
      MappingRoom(k, h, reserved, p, mem, bits, cur, f, left);
      PageIs(q, 256);
      ghost var tabs';
      r, tabs' := MapPage(pml4[p], f, virt, 7, k.spaces[p].tabs, 256);
      k', h' := k, h;
      if r.Done? {
        FreshMapped(k, h, reserved, p, old(mem), old(bits), old(cur), f, left, q, mem, bits, cur, tabs');
        k' := FreshKernel(k, p, mem, bits, cur, f, left, q, tabs');
        h' := h[SpaceAt(p) := Owned(k'.spaces[p])];
      }
    }

    // `i` of the `n` pages from `base` on are mapped, and `addr` is where the next one goes.
    ghost predicate Underway(p: nat, base: nat, virt: bv64, n: nat, k: Kernel, free0: nat, i: nat, addr: bv64, kn: Kernel,
                             hn: Held)
      reads this
    {
      && p in k.spaces && p in kn.spaces && i <= n && Bound() && cur > 0 && |k.mem| == |mem|
      && p in pml4 && pml4[p] == kn.spaces[p].root && NumberOf(PathOf(virt)) + n <= USER_PAGES
      && Unmapped(k.spaces[p], virt, n)
      && Mapping(kn, hn, reserved, p, mem, bits, cur, base + i, n - i)
      && RangeGiven(k, kn, p, NumberOf(PathOf(virt)), base, i)
      && (i < n ==> PathOf(addr) == PathFrom(NumberOf(PathOf(virt)) + i))
      && TablesSoFar(k.spaces[p].tabs, free0, kn.spaces[p].tabs, |Free()|, NumberOf(PathOf(virt)), i)
    }

    // One turn of the loop.
    method MapNext(p: nat, base: nat, ghost virt: bv64, n: nat, ghost k: Kernel, ghost free0: nat, i: nat, addr: bv64,
                   ghost kn: Kernel, ghost hn: Held)
      returns (r: Outcome, ghost k': Kernel, ghost h': Held)
      requires Underway(p, base, virt, n, k, free0, i, addr, kn, hn) && i < n
      modifies this`mem, this`bits, this`cur
      ensures Bound() && |bits| == |old(bits)| && (r.Done? || r.Stuck?)
      ensures r.Done? ==>
                Underway(p, base, virt, n, k, free0, i + 1, PageUp(addr), k', h')
      ensures r.Stuck? ==> !TablesFit(free0, k.spaces[p].tabs, NumberOf(PathOf(virt)), n)
    {
      hide Mapping, RangeGiven, PageGiven, Ahead, Owned, PathOf, PathFrom, NumberOf, Within, Above, AboveRange, TablesFit,
        TablesSoFar, Unmapped, PageUp, KernelOk, MemOk, SpaceOk, FreePages, Missing;
      ghost var first, tabs0, free1 := NumberOf(PathOf(virt)), k.spaces[p].tabs, |Free()|;
      NextUnmapped(k, kn, p, virt, base, i, n);
      MappingRoom(kn, hn, reserved, p, mem, bits, cur, base + i, n - i);
      r, k', h' := MapFresh(p, base + i, addr, n - i, kn, hn);
      if !r.Done? {
        TablesLack(tabs0, free0, kn.spaces[p].tabs, free1, first, i, n);
        r := Stuck;
        return;
      }
      assert base + i + 1 == base + (i + 1) && n - i - 1 == n - (i + 1);
      MappingRoom(k', h', reserved, p, mem, bits, cur, base + (i + 1), n - (i + 1));
      RangeAdvances(k, kn, k', p, first, base, i);
      TablesNext(tabs0, free0, kn.spaces[p].tabs, free1, k'.spaces[p].tabs, |Free()|, first, i);
      if i + 1 < n {
        NextPath(addr, first + i);
      }
    }

    // Map the zeroed pages from `base` on, one after the other.
    method MapRange(p: nat, base: nat, virt: bv64, n: nat, ghost k: Kernel, ghost k0: Kernel, ghost h0: Held)
      returns (r: Outcome, ghost kn: Kernel, ghost hn: Held)
      requires Mapping(k0, h0, reserved, p, mem, bits, cur, base, n) && cur > 0 && p in k.spaces && p in k0.spaces
      requires k0.spaces[p] == k.spaces[p] && |k.mem| == |mem| && p in pml4 && pml4[p] == k.spaces[p].root
      requires Unmapped(k.spaces[p], virt, n) && RangeGiven(k, k0, p, NumberOf(PathOf(virt)), base, 0)
      modifies this`mem, this`bits, this`cur
      ensures Bound() && |bits| == |old(bits)| && (r.Done? || r.Stuck?) && NumberOf(PathOf(virt)) + n <= USER_PAGES
      ensures r.Done? <==> TablesFit(|old(Free())|, k.spaces[p].tabs, NumberOf(PathOf(virt)), n)
      ensures r.Done? ==>
                && p in kn.spaces && Mapping(kn, hn, reserved, p, mem, bits, cur, base + n, 0)
                && RangeGiven(k, kn, p, NumberOf(PathOf(virt)), base, n)
    {
      hide Mapping, RangeGiven, Ahead, Owned, PathOf, PathFrom, NumberOf, AboveRange, TablesFit, TablesSoFar, Unmapped, PageUp,
        KernelOk, MemOk, SpaceOk, FreePages;
      kn, hn := k0, h0;
      r := Done;
      ghost var free0 := |Free()|;
      FreshReady(k0, h0, reserved, p, mem, bits, cur, base, n);
      MappingRoom(k0, h0, reserved, p, mem, bits, cur, base, n);
      RangeStarts(k0, h0, reserved, p, k.spaces[p].tabs, free0, virt, n);
      var addr, i := virt, 0;
      assert base + 0 == base && NumberOf(PathOf(virt)) + 0 == NumberOf(PathOf(virt));
      assert Underway(p, base, virt, n, k, free0, 0, addr, kn, hn);
      while i < n
        invariant i <= n && |bits| == |old(bits)| && r.Done? && Underway(p, base, virt, n, k, free0, i, addr, kn, hn)
      {
        r, kn, hn := MapNext(p, base, virt, n, k, free0, i, addr, kn, hn);
        if !r.Done? {
          return;
        }
        addr, i := PageUp(addr), i + 1;
      }
      TablesEnough(k.spaces[p].tabs, free0, kn.spaces[p].tabs, |Free()|, NumberOf(PathOf(virt)), n);
    }

    // Fresh zeroed pages at an address.
    method AllocAt(p: nat, virt: bv64, n: nat) returns (r: Outcome)
      requires Valid() && p in spaces && n > 0 && Unmapped(spaces[p], virt, n)
      modifies this
      ensures r.Done? <==> RangeFits(old(Map()), old(spaces)[p].tabs, virt, n)
      ensures r.NoMemory? <==> CleanlyFails(old(Map()), n)
      ensures r != Panic && Bound() && |bits| == |old(bits)|
      ensures r.NoMemory? ==> Valid() && Unchanged(old(St()), St())
      ensures r.Done? ==> Valid() && RangeGiven(old(St()), St(), p, NumberOf(PathOf(virt)), Start(old(Map()), n), n)
    {
      hide RootsMatch, RangeGiven, KernelOk, FreePages, Ahead, Behind, Owned, PathOf, MemOk, OthersSame, Start, Marked,
        CleanlyFails, Unmapped, TablesFit, NumberOf, Mapping, Taken, Ahead;
      ghost var k := St();
      KernelBound(k, held, reserved);
      var f := PmmAllocz(n);
      if !f.Found? {
        r := if f.OutOfMemory? then NoMemory else Stuck;
        KernelMoved(k, held, reserved, cur);
        return;
      }
      RootsKept(pml4, spaces, p, spaces[p]);
      UnmappedInside(spaces[p], virt, n);
      TakeRun(k.Map(), n);
      ZeroedRun(k.mem, mem, f.start, n, FreePages(k.bits));
      RangeBegins(k, held, reserved, p, mem, cur, NumberOf(PathOf(virt)), f.start);
      ghost var k0 := k.(mem := mem, cur := cur);
      MappingBegins(k0, held, reserved, p, mem, bits, cur, f.start, n);
      ghost var kn, hn;
      r, kn, hn := MapRange(p, f.start, virt, n, k, k0, held);
      if r.Done? {
        MappingDone(kn, hn, reserved, p, mem, bits, cur, f.start + n);
        RangeRoot(k, kn, p, NumberOf(PathOf(virt)), f.start, n);
        RootsKept(pml4, spaces, p, kn.spaces[p]);
        spaces := spaces[p := kn.spaces[p]];
        held := hn;
        assert St() == kn;
      }
    }

    // Change the flags of a page that is mapped and stays present.
    method Remap(p: nat, virt: bv64, flags: nat)
      requires Valid() && p in spaces && PathOf(virt) in spaces[p].data && flags < PAGE && flags % 2 == 1
      modifies this`mem
      ensures Valid() && FlagsChanged(old(St()), St(), p, PathOf(virt), flags) && Bound()
    {
      hide RootsMatch, KernelOk, PathOf, Within, TreeOk, FlagsChanged, Leaf, Frames, SameLeaves, Kept;
      ghost var k, s := St(), spaces[p];
      RootsKept(pml4, spaces, p, s);
      SpaceReady(k, held, reserved, p, {});
      OwnsTree(mem, s);
      DataWithin(k, held, reserved, p, virt);
      var ok := RemapPage(pml4[p], virt, flags, s.tabs, 256);
      FlagsKept(k, held, reserved, p, PathOf(virt), flags, mem);
      assert St() == k.(mem := mem);
      KernelBound(St(), held, reserved);
    }

    // Fork the address space at `p`.  With room on the bitmap it panics exactly when the parent has
    // more pages than the pool.
    method ForkAddressSpace(p: nat) returns (r: Outcome, c: nat)
      requires Valid() && p in spaces
      modifies this
      ensures r.Done? <==> ForkFits(old(Map()), old(spaces)[p].data.Keys) && |old(spaces)[p].data| <= POOL
      ensures ForkFits(old(Map()), old(spaces)[p].data.Keys) ==> (r.Panic? <==> |old(spaces)[p].data| > POOL)
      ensures r != NoMemory && Bound() && |bits| == |old(bits)|
      ensures r.Done? ==> Valid() && Forked(old(St()), St(), p, c, kernelRoot) && Charged(old(St()), St(), c)
    {
      hide RootsMatch, Forked, KernelOk, FreePages, Taken, Servable, Serves, After, Owned, OthersSame, SpaceOk, ForkedFrom,
        FramesConserved, Kept, ParentOk, PagesOf, Needed, Ahead, Behind, TablesSuffice, SpaceFine, BlockPages, Charged,
        NewPages, SameSpace;
      ghost var k0, held0 := St(), held;
      KernelBound(k0, held, reserved);
      SpaceInside(k0, held, reserved, p);
      ReservedInside(k0, held, reserved, kernelRoot);
      SpaceReady(k0, held, reserved, p, {});
      r, c := NewAddressSpace();
      if !r.Done? {
        r := Stuck;
        return;
      }
      ghost var k := St();
      KernelBound(k, held, reserved);
      KeptAt(k0.mem, k.mem, FreePages(k0.bits), kernelRoot);
      KeptSpace(k0, held0, reserved, k, p, c);
      RootsKept(pml4, spaces, p, spaces[p]);
      RootsKept(pml4, spaces, c, spaces[c]);
      ForkReady(k, held, reserved, p, c);
      ReservedInside(k, held, reserved, kernelRoot);
      ghost var s := k0.spaces[p];
      ghost var ntabs, copied;
      r, ntabs, copied := ForkInto(pml4[c], pml4[p], kernelRoot, s.tabs, s.data.Keys);
      assert |s.data.Keys| == |s.data|;
      if r.Done? {
        ForkMade(k, held, reserved, c, s.tabs, ntabs, copied, mem, bits, cur);
        ForkedEarlier(k0, k, p, mem, ntabs, copied);
        ghost var s' := Space(k.spaces[c].root, ntabs, copied);
        RootsKept(pml4, spaces, c, s');
        spaces := spaces[c := s'];
        held := held[SpaceAt(c) := Owned(s')];
        assert St() == Kernel(mem, bits, cur, k.allocs, k.spaces[c := s']);
        OthersTwice(k0, k, St(), c);
        ChargedMore(k0, k, St(), c, s'.root);
        ForkIs(k0, k, St(), p, c, kernelRoot);
      }
    }

    // ---------- freeing address spaces ----------

    // Give one page back.  It must not be free already.
    method FreeFrame(f: nat)
      requires f < |bits| && f !in FreePages(bits)
      modifies this`bits
      ensures |bits| == |old(bits)| && FreePages(bits) == old(FreePages(bits)) + {f}
    {
      hide FreePages;
      PmmFree(f, 1);
      assert Run(f, f + 1) == {f};
    }

    // Free everything below the table at `p`: one loop per level, each frame freed once.
    method FreeBelow(table: nat, depth: nat, p: Path, ghost root: nat, ghost tabs: map<Path, nat>, ghost data: map<Path, nat>)
      requires Owns(mem, root, tabs, data, 256) && Injective(tabs + data)
      requires depth == |p| && p in tabs && |p| < LEVELS && table == tabs[p] && Within(p, 256)
      requires Part(tabs + data, p, ENTRIES) !! FreePages(bits) && forall x :: x in (tabs + data).Values ==> x < |bits|
      modifies this`bits
      ensures |bits| == |old(bits)| && FreePages(bits) == old(FreePages(bits)) + Part(tabs + data, p, ENTRIES)
      decreases LEVELS - |p|
    {
      hide Owns, Part, Within, Closed, Injective, Under, FreePages;
      ghost var all := tabs + data;
      OwnsShape(mem, root, tabs, data, 256);
      var limit := if depth == 0 then 256 else ENTRIES;
      PartNone(all, p);
      var i := 0;
      while i < limit
        invariant i <= limit && |bits| == |old(bits)|
        invariant FreePages(bits) == old(FreePages(bits)) + Part(all, p, i)
      {
        WithinChild(p, i, 256);
        OwnsEntry(mem, root, tabs, data, 256, p, i);
        PartStep(all, p, i);
        if Present(mem[table][i]) {
          ghost var child := p + [i];
          PartApart(all, p, i);
          PartMono(all, p, i + 1);
          assert all[child] in all.Values;
          if depth < 3 {
            FreeBelow(FrameOf(mem[table][i]), depth + 1, p + [i], root, tabs, data);
          } else {
            NothingBelowPage(mem, root, tabs, data, 256, child);
          }
          FreeFrame(FrameOf(mem[table][i]));
        }
        i := i + 1;
      }
      if depth == 0 {
        PartTop(all, 256);
      }
    }

    // Everything an address space owns.
    method FreeTables(root: nat, ghost s: Space)
      requires SpaceFine(mem, s) && root == s.root && Owned(s) !! FreePages(bits) && forall x :: x in Owned(s) ==> x < |bits|
      modifies this`bits
      ensures |bits| == |old(bits)| && FreePages(bits) == old(FreePages(bits)) + Owned(s)
    {
      hide Owns, Part, Within, Closed, Injective, Under, FreePages;
      ghost var all := s.tabs + s.data;
      OwnsShape(mem, root, s.tabs, s.data, 256);
      OwnsRoot(mem, root, s.tabs, s.data, 256);
      PartWhole(all);
      PartApart(all, [], 0);
      RootApart(all);
      FreeBelow(root, 0, [], root, s.tabs, s.data);
      FreeFrame(root);
    }

    // Free an address space: exactly its tables, its pages and its record become free.
    method FreeAddressSpace(p: nat)
      requires Valid() && p in spaces
      modifies this
      ensures Valid() && OthersSame(old(St()), St(), p)
      ensures allocs == old(allocs) - {p} && spaces == old(spaces) - {p} && cur == old(cur) && mem == old(mem)
      ensures p in old(allocs) && 1 <= p && |bits| == |old(bits)|
      ensures FreePages(bits) == old(FreePages(bits)) + Owned(old(spaces)[p]) + BlockPages(p, old(allocs)[p])
    {
      hide RootsMatch, KernelOk, FreePages, Owned, OthersSame, SpaceOk, SpaceFine, BlockPages;
      ghost var k := St();
      RootsKept(pml4, spaces, p, spaces[p]);
      KernelBound(k, held, reserved);
      RecordOf(k, held, reserved, p);
      SpaceReady(k, held, reserved, p, {});
      SpaceInside(k, held, reserved, p);
      FreeTables(pml4[p], spaces[p]);
      SpaceDropped(k, held, reserved, p, bits);
      RootsLess(pml4, spaces, p);
      spaces := spaces - {p};
      pml4 := pml4 - {p};
      held := held - {SpaceAt(p)};
      ghost var k1 := St();
      assert k1 == k.(bits := bits, spaces := k.spaces - {p});
      Kfree(p);
      OthersTwice(k, k1, St(), p);
    }

    // A fork that is freed again leaves the bitmap, the heap and the address spaces as they were.
    method ForkThenFree(p: nat) returns (r: Outcome)
      requires Valid() && p in spaces
      modifies this
      ensures r.Done? <==> ForkFits(old(Map()), old(spaces)[p].data.Keys) && |old(spaces)[p].data| <= POOL
      ensures r.Done? ==> Valid() && bits == old(bits) && allocs == old(allocs) && spaces == old(spaces)
      ensures r.Done? ==> forall q :: SameBlock(old(St()), St(), q) && SameSpace(old(St()), St(), q)
    {
      hide RootsMatch, KernelOk, FreePages, Owned, BlockPages, ForkFits, ForkedFrom, Forked, OthersSame;
      ghost var k0, held0 := St(), held;
      KernelBound(k0, held, reserved);
      var c;
      r, c := ForkAddressSpace(p);
      if r.Done? {
        ghost var k1 := St();
        KernelBound(k1, held, reserved);
        FreeAddressSpace(c);
        BitmapDetermined(bits, old(bits));
        NothingLeft(k0, held0, reserved, k1, St(), p, c, kernelRoot);
      }
    }

    // Unmapping the only page of a new address space leaves its page table free and still linked.
    method UnmapOnlyPage(virt: bv64) returns (r: Outcome, ghost s: Space)
      requires Valid() && Within(PathOf(virt), 256)
      modifies this
      ensures r.Done? <==>
                Serves(old(Map()), [2, 1]) && |Ahead(After(old(Map()), [2, 1]).bits, After(old(Map()), [2, 1]).cur)| >= 4
      ensures r.Done? ==>
                && TreeOk(mem, s.root, s.tabs, 256) && PathOf(virt)[..3] in s.tabs
                && s.tabs[PathOf(virt)[..3]] in FreePages(bits)
    {
      hide KernelOk, RootsMatch, PathOf, Within, FreePages, SpaceFine, Owned, OthersSame, Serves, After, Above, MapsAnother,
        TreeOk, Frames, MemOk, Leaf, Ahead, RangeGiven, RangeFits, Unmapped, NumberOf, Start, Kept;
      var p;
      s := Space(0, map[], map[]);
      KernelBound(St(), held, reserved);
      r, p := NewAddressSpace();
      if !r.Done? {
        return Stuck, s;
      }
      FreshRange(Map(), spaces[p], virt);
      ghost var k, b := St(), Map();
      r := AllocAt(p, virt, 1);
      if !r.Done? {
        return Stuck, s;
      }
      RangeRoot(k, St(), p, NumberOf(PathOf(virt)), Start(b, 1), 1);
      s := spaces[p];
      RootsKept(pml4, spaces, p, s);
      SpaceReady(St(), held, reserved, p, FreePages(bits));
      OneMapped(k, St(), p, virt, Start(b, 1));
      OnlyPage(mem, s, PathOf(virt));
      KernelBound(St(), held, reserved);
      var ok := UnmapPage(pml4[p], virt, s.tabs, 256);
    }

    // ---------- runs ----------

    // Is the page at an address mapped?
    method Mapped(p: nat, virt: bv64) returns (b: bool)
      requires Valid() && p in spaces && Within(PathOf(virt), 256)
      ensures b <==> PathOf(virt) in spaces[p].data
    {
      hide RootsMatch, KernelOk, PathOf, Within, TreeOk;
      RootsKept(pml4, spaces, p, spaces[p]);
      SpaceReady(St(), held, reserved, p, {});
      OwnsTree(mem, spaces[p]);
      var q := PathOf(virt);
      PageIs(q, 256);
      var ok, pt := FindTable(pml4[p], q, spaces[p].tabs, 256);
      b := ok && Present(mem[pt][q[3]]);
    }

    // Are all pages of a range in the user's half and unmapped?
    method AllUnmapped(p: nat, virt: bv64, n: nat) returns (b: bool)
      requires Valid() && p in spaces
      ensures b <==> Unmapped(spaces[p], virt, n)
    {
      hide RootsMatch, KernelOk, PathOf, PathFrom, NumberOf, Within, PageUp;
      if PathOf(virt)[0] >= 256 {
        return false;
      }
      PathBack(PathOf(virt));
      var first := NumberOf(PathOf(virt));
      if first + n > USER_PAGES {
        return false;
      }
      var addr, i := virt, 0;
      while i < n
        invariant i <= n && (i < n ==> PathOf(addr) == PathFrom(first + i))
        invariant forall k :: first <= k < first + i ==> PathFrom(k) !in spaces[p].data
      {
        PathWithin(addr);
        var mapped := Mapped(p, addr);
        if mapped {
          return false;
        }
        if i + 1 < n {
          NextPath(addr, first + i);
        }
        addr := PageUp(addr);
        i := i + 1;
      }
      b := true;
    }

    method MayDo(op: Op) returns (b: bool)
      requires Valid()
      ensures b <==> Applicable(St(), op)
    {
      hide KernelOk, PathOf;
      b := true;
      if op.FreeOp? || (op.ReallocOp? && op.p != 0) {
        b := op.p in allocs && op.p !in pml4;
      } else if op.MapOp? {
        b := op.p in pml4 && op.n > 0;
        if b {
          b := AllUnmapped(op.p, op.virt, op.n);
        }
      } else if op.RemapOp? {
        b := op.p in pml4 && PathOf(op.virt)[0] < 256 && op.flags < PAGE && op.flags % 2 == 1;
        if b {
          PathWithin(op.virt);
          b := Mapped(op.p, op.virt);
        } else if op.p in pml4 {
          DataWithin(St(), held, reserved, op.p, op.virt);
        }
      } else if op.ForkOp? || op.DropOp? {
        b := op.p in pml4;
      }
    }

    // One operation.
    method Do(op: Op) returns (r: Outcome)
      requires Valid() && Applicable(St(), op)
      modifies this
      ensures Bound() && (r.Done? || r.NoMemory? <==> Goes(old(St()), op))
      ensures r.Done? || r.NoMemory? ==> Valid() && Stepped(old(St()), op, St(), kernelRoot)
    {
      hide KernelOk, RootsMatch, PathOf, OthersSame, Stepped, PageGiven, Forked, Charged, BlockResized, NewPages, FreePages,
        BlockPages, Owned, Within, Above, Ahead, Servable, CleanlyFails, Serves, ForkFits, After, Taken, Kept;
      var q := 0;
      ghost var k, held0 := St(), held;
      KernelBound(k, held, reserved);
      if op.AllocOp? {
        r, q := Kalloc(op.size);
        if r.Done? {
          BlockSteps(k, held0, reserved, St(), op, q, kernelRoot);
        }
      } else if op.FreeOp? {
        Kfree(op.p);
        r := Done;
        DropSteps(k, St(), op, kernelRoot);
      } else if op.ReallocOp? {
        r, q := Krealloc(op.p, op.size);
        if r.Done? {
          ResizeSteps(k, St(), op, q, kernelRoot);
        }
      } else if op.NewOp? {
        TwoSearches(Map());
        r, q := NewAddressSpace();
        if r.Done? {
          KernelBound(St(), held, reserved);
          SpaceSteps(k, held0, reserved, St(), op, q, kernelRoot);
        }
      } else if op.MapOp? {
        UnmappedInside(spaces[op.p], op.virt, op.n);
        r := AllocAt(op.p, op.virt, op.n);
        if r.Done? {
          KernelBound(St(), held, reserved);
          MapSteps(k, St(), op, Start(k.Map(), op.n), kernelRoot);
        }
      } else if op.RemapOp? {
        Remap(op.p, op.virt, op.flags);
        r := Done;
        RemapSteps(k, St(), op, kernelRoot);
      } else if op.ForkOp? {
        r, q := ForkAddressSpace(op.p);
        if r.Done? {
          KernelBound(St(), held, reserved);
          ForkSteps(k, held0, reserved, St(), op, q, kernelRoot);
        }
      } else {
        FreeAddressSpace(op.p);
        r := Done;
        DropSteps(k, St(), op, kernelRoot);
      }
      if r.NoMemory? {
        NothingMoved(k, St(), op, kernelRoot);
      }
    }

    // Any sequence of operations, up to the first that a caller may not ask for or that goes wrong.
    method Perform(ops: seq<Op>) returns (n: nat, ghost states: seq<Kernel>)
      requires Valid()
      modifies this
      ensures n <= |ops| && IsRun(states, ops[..n], reserved, kernelRoot) && states[0] == old(St())
      ensures n == |ops| ==> Valid() && St() == states[n]
      ensures forall i :: 0 <= i < n ==> BitmapOk(states[i].Map()) && Applicable(states[i], ops[i]) && Goes(states[i], ops[i])
      ensures n < |ops| ==>
                BitmapOk(states[n].Map()) && !(Applicable(states[n], ops[n]) && Goes(states[n], ops[n]))
    {
      hide KernelOk, Stepped, Goes, Applicable, RootsMatch, Sound;
      n, states := 0, [St()];
      SoundIs(St(), held, reserved);
      KernelBound(St(), held, reserved);
      assert ops[..0] == [];
      while n < |ops|
        invariant n <= |ops| && Valid() && BitmapOk(St().Map())
        invariant IsRun(states, ops[..n], reserved, kernelRoot) && states[0] == old(St()) && St() == states[n]
        invariant forall i :: 0 <= i < n ==> BitmapOk(states[i].Map()) && Applicable(states[i], ops[i]) && Goes(states[i], ops[i])
      {
        var may := MayDo(ops[n]);
        if !may {
          return;
        }
        var r := Do(ops[n]);
        if !r.Done? && !r.NoMemory? {
          return;
        }
        SoundIs(St(), held, reserved);
        KernelBound(St(), held, reserved);
        RunMore(states, ops[..n], reserved, kernelRoot, ops[n], St());
        assert ops[..n] + [ops[n]] == ops[..n + 1];
        states := states + [St()];
        n := n + 1;
      }
    }
  }

  // From a fresh machine: a block taken and given back leaves the search behind free pages, so the next
  // allocation of two pages runs off the end of the bitmap although they would serve.
  method ReachWrap() returns (m: Machine)
    ensures fresh(m) && m.Valid() && FreePages(m.bits) == {0, 1, 2, 4} && m.allocs == map[]
    ensures m.cur == 3 <= |m.bits| && !Servable(m.Map(), PagesFor(PAGE_SIZE) + 1)
  {
    hide KernelOk, RootsMatch, OthersSame, FreePages, Servable, Taken;
    m := new Machine(FivePages(), 3);
    ThreeOfFive();
    var r, p := m.Kalloc(2 * PAGE_SIZE);
    m.Kfree(p);
    WrapWithFreePages();
    BitmapDetermined(m.bits, FivePages());
  }

  lemma TwoSearches(b: Bitmap)
    requires BitmapOk(b)
    ensures Serves(b, [2, 1]) <==> Servable(b, 2) && Servable(Taken(b, 2), 1)
    ensures Serves(b, [2, 1]) ==> After(b, [2, 1]) == Taken(Taken(b, 2), 1)
    ensures PagesFor(PAGEMAP_SIZE) + 1 == 2
  {
    hide Taken, Servable;
    assert [2, 1][1..] == [1] && [1][1..] == [];
    if Servable(b, 2) {
      assert Serves(Taken(b, 2), [1]) <==> Servable(Taken(b, 2), 1);
    }
  }

  lemma TakenIs(b: Bitmap, n: nat)
    requires BitmapOk(b) && Servable(b, n)
    ensures var s := Start(b, n);
            && s + n <= |b.bits| && FreeRun(b.bits, s, n) && Taken(b, n) == Bitmap(Marked(b.bits, s, n, true), s + n)
  {
  }

  lemma PoolInside(mem0: seq<Page>, free0: set<nat>, otabs: map<Path, nat>, mem: seq<Page>, free: set<nat>, root: nat,
                   ntabs: map<Path, nat>, copied: map<Path, nat>, base: nat)
    requires ForkOk(mem0, free0, otabs, 256, mem, free, root, ntabs, copied, base)
    ensures base + POOL <= |mem| && |copied| <= POOL && |mem| == |mem0|
  {
    hide SpaceOk, CopyOk, Leaf, IsPage, Needed;
  }

  lemma FreeBelowLength(bits: seq<bool>)
    ensures forall f :: f in FreePages(bits) ==> f < |bits|
  {
  }

  lemma SpaceWithPast(mem: seq<Page>, past: set<nat>, free0: set<nat>, free: set<nat>, root: nat, ntabs: map<Path, nat>,
                      copied: map<Path, nat>)
    requires SpaceOk(mem, free, root, ntabs, 256) && FramesConserved(past + free0, past + free, ntabs, copied)
    requires forall f :: f in past + free ==> f < |mem|
    ensures SpaceOk(mem, past + free, root, ntabs, 256)
  {
    hide TreeOk, Frames;
    SpaceGains(mem, free, past, root, ntabs, 256);
    assert free + past == past + free;
  }

  lemma KeptMore(mem: seq<Page>, mem': seq<Page>, changed: set<nat>, more: set<nat>)
    requires Kept(mem, mem', changed)
    ensures Kept(mem, mem', changed + more)
  {
  }

  // What the search for the pool leaves, and what it passes.
  lemma PoolTaken(b: Bitmap, root: nat)
    requires BitmapOk(b) && root !in FreePages(b.bits) && root < |b.bits|
    ensures Servable(b, POOL) ==>
              var base, b' := Start(b, POOL), Taken(b, POOL);
              var pool, free, past := Run(base, base + POOL), Ahead(b'.bits, b'.cur), Behind(b'.bits, b'.cur);
              && base + POOL <= |b.bits| && pool !! free && root !in free && root !in pool
              && past !! free + {root} + pool && free + {root} + pool + past == FreePages(b.bits) + {root}
              && (forall f :: f in free + {root} + pool ==> f < |b.bits|)
  {
    if Servable(b, POOL) {
      hide Start, Run;
      TakeRun(b, POOL);
      FreeSplit(Taken(b, POOL).bits, Taken(b, POOL).cur);
    }
  }

  lemma FreeZeroSize(free: set<nat>, root: nat, base: nat, free0: set<nat>)
    requires root !in free && root !in Run(base, base + POOL) && free !! Run(base, base + POOL)
    requires free0 == free + {root} + Run(base, base + POOL)
    ensures |free0| == |free| + 1 + POOL
  {
    hide Run;
    RunSize(base, base + POOL);
    assert free + {root} !! Run(base, base + POOL);
  }

  lemma RootWithin(top: nat)
    ensures Within([], top)
  {
  }
}

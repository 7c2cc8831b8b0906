// The pages of the kernel as a whole: blocks of the heap and address spaces, each holding pages of its
// own, on one bitmap.  What each operation does to that picture, as values.

module KernelModel {
  import opened Ledger
  import opened PageTables
  import opened Pmm
  import opened Runs
  import opened SpaceModel

  // An address space: its root, its tables, and the frames of its pages.
  datatype Space = Space(root: nat, tabs: map<Path, nat>, data: map<Path, nat>)

  datatype Kernel = Kernel(mem: seq<Page>, bits: seq<bool>, cur: nat, allocs: map<nat, Alloc>, spaces: map<nat, Space>) {
    function Map(): Bitmap {
      Bitmap(bits, cur)
    }
  }

  ghost function Owned(s: Space): set<nat> {
    (s.tabs + s.data).Values
  }

  ghost predicate SpaceFine(mem: seq<Page>, s: Space) {
    Owns(mem, s.root, s.tabs, s.data, 256) && Injective(s.tabs + s.data)
  }

  // The record of every address space points to its root.
  ghost predicate RootsMatch(pml4: map<nat, nat>, spaces: map<nat, Space>) {
    pml4.Keys == spaces.Keys && forall p :: p in spaces ==> pml4[p] == spaces[p].root
  }

  lemma RootsKept(pml4: map<nat, nat>, spaces: map<nat, Space>, p: nat, s: Space)
    requires RootsMatch(pml4, spaces) && p in spaces && s.root == spaces[p].root
    ensures RootsMatch(pml4, spaces[p := s]) && p in pml4 && pml4[p] == spaces[p].root
  {
  }

  lemma RootsMore(pml4: map<nat, nat>, spaces: map<nat, Space>, p: nat, s: Space)
    requires RootsMatch(pml4, spaces)
    ensures RootsMatch(pml4[p := s.root], spaces[p := s])
  {
  }

  lemma RootsLess(pml4: map<nat, nat>, spaces: map<nat, Space>, p: nat)
    requires RootsMatch(pml4, spaces)
    ensures RootsMatch(pml4 - {p}, spaces - {p})
  {
  }

  ghost predicate BlocksFine(allocs: map<nat, Alloc>) {
    forall p :: p in allocs ==> 1 <= p && BlockOk(allocs[p])
  }

  ghost predicate SpacesFine(mem: seq<Page>, spaces: map<nat, Space>) {
    forall p :: p in spaces ==> SpaceFine(mem, spaces[p])
  }

  // What the blocks and the address spaces hold.
  ghost predicate HeldIs(held: Held, allocs: map<nat, Alloc>, spaces: map<nat, Space>) {
    && (forall p :: BlockAt(p) in held <==> p in allocs)
    && (forall p :: SpaceAt(p) in held <==> p in spaces)
    && (forall p :: p in allocs ==> 1 <= p && held[BlockAt(p)] == BlockPages(p, allocs[p]))
    && (forall p :: p in spaces ==> held[SpaceAt(p)] == Owned(spaces[p]))
  }

  // Blocks, tables and pages are apart from each other, and with the reserved pages they are exactly
  // the pages whose bit is set.  The record of an address space is a block.
  ghost predicate KernelOk(k: Kernel, held: Held, reserved: set<nat>) {
    && k.cur <= |k.bits| == |k.mem| && MemOk(k.mem)
    && Balanced(|k.bits|, reserved, FreePages(k.bits), held)
    && HeldIs(held, k.allocs, k.spaces)
    && BlocksFine(k.allocs) && SpacesFine(k.mem, k.spaces)
    && k.spaces.Keys <= k.allocs.Keys
  }

  // Block `r` is as it was.
  ghost predicate SameBlock(k: Kernel, k': Kernel, r: nat) {
    r in k.allocs ==> r in k'.allocs && k'.allocs[r] == k.allocs[r]
  }

  // Address space `r` is as it was: its tables, its pages and their contents.
  ghost predicate SameSpace(k: Kernel, k': Kernel, r: nat) {
    r in k.spaces ==>
      && r in k'.spaces && k'.spaces[r] == k.spaces[r]
      && forall x :: x in Owned(k.spaces[r]) && x < |k.mem| ==> x < |k'.mem| && k'.mem[x] == k.mem[x]
  }

  // Everything but the block and the address space at `p` is as it was.
  ghost predicate OthersSame(k: Kernel, k': Kernel, p: nat) {
    forall r :: r != p ==> SameBlock(k, k', r) && SameSpace(k, k', r)
  }

  // In particular its translations.
  lemma SameTranslation(k: Kernel, k': Kernel, r: nat, q: Path)
    requires SameSpace(k, k', r) && r in k.spaces && SpaceFine(k.mem, k.spaces[r])
    ensures r in k'.spaces && Leaf(k'.mem, k'.spaces[r].tabs, q) == Leaf(k.mem, k.spaces[r].tabs, q)
  {
    var s := k.spaces[r];
    if |q| == LEVELS && q[..3] in s.tabs {
      assert q[..3] !in s.data;
      assert (s.tabs + s.data)[q[..3]] == s.tabs[q[..3]];
      assert s.tabs[q[..3]] in Owned(s);
    }
  }

  // ---------- changes of memory ----------

  lemma TablesOwned(s: Space, mem: seq<Page>)
    requires SpaceFine(mem, s)
    ensures forall c :: c in s.tabs ==> s.tabs[c] in Owned(s) && c !in s.data
    ensures forall c :: c in s.data ==> s.data[c] in Owned(s)
    ensures Frames(s.tabs) <= Owned(s)
  {
    forall c | c in s.tabs
      ensures s.tabs[c] in Owned(s) && c !in s.data
    {
      assert |c| < LEVELS;
      assert (s.tabs + s.data)[c] == s.tabs[c];
    }
    forall c | c in s.data
      ensures s.data[c] in Owned(s)
    {
      assert (s.tabs + s.data)[c] == s.data[c];
    }
  }

  // An address space does not see changes of pages that it does not own.
  lemma SpaceUntouched(mem: seq<Page>, mem': seq<Page>, s: Space, changed: set<nat>)
    requires SpaceFine(mem, s) && Kept(mem, mem', changed) && MemOk(mem') && Owned(s) !! changed
    ensures SpaceFine(mem', s)
  {
    hide TreeOk, Owned, IsPage, Injective;
    TablesOwned(s, mem);
    OwnsTree(mem, s);
    TablesInMemory(mem, s.root, s.tabs, 256);
    TreeFrame(mem, s.root, s.tabs, 256, mem');
  }

  lemma OwnsTree(mem: seq<Page>, s: Space)
    requires SpaceFine(mem, s)
    ensures TreeOk(mem, s.root, s.tabs, 256)
  {
  }

  lemma TablesInMemory(mem: seq<Page>, root: nat, tabs: map<Path, nat>, top: nat)
    requires TreeOk(mem, root, tabs, top)
    ensures forall p :: p in tabs ==> tabs[p] < |mem|
  {
  }

  // Memory changed in free pages and in those of the address space at `p` only.
  lemma OthersUntouched(k: Kernel, held: Held, reserved: set<nat>, mem': seq<Page>, changed: set<nat>, p: nat, r: nat)
    requires KernelOk(k, held, reserved) && Kept(k.mem, mem', changed) && MemOk(mem')
    requires changed <= FreePages(k.bits) + if p in k.spaces then Owned(k.spaces[p]) else {}
    requires r in k.spaces && r != p
    ensures SpaceFine(mem', k.spaces[r]) && Owned(k.spaces[r]) !! changed
  {
    hide SpaceFine, Owned, FreePages;
    assert SpaceAt(r) in held && held[SpaceAt(r)] == Owned(k.spaces[r]);
    assert p in k.spaces ==> SpaceAt(p) in held && held[SpaceAt(p)] == Owned(k.spaces[p]);
    OwnedApart(k, held, reserved, p, r);
    SpaceUntouched(k.mem, mem', k.spaces[r], changed);
  }

  lemma OwnedApart(k: Kernel, held: Held, reserved: set<nat>, p: nat, r: nat)
    requires KernelOk(k, held, reserved) && r in k.spaces && r != p
    ensures Owned(k.spaces[r]) !! FreePages(k.bits)
    ensures p in k.spaces ==> Owned(k.spaces[r]) !! Owned(k.spaces[p])
  {
    hide SpaceFine, Owned, FreePages;
    assert SpaceAt(r) in held && held[SpaceAt(r)] == Owned(k.spaces[r]);
    if p in k.spaces {
      assert SpaceAt(p) in held && held[SpaceAt(p)] == Owned(k.spaces[p]) && SpaceAt(p) != SpaceAt(r);
    }
  }

  // ---------- the pieces of the picture ----------

  lemma HeldBlock(held: Held, allocs: map<nat, Alloc>, spaces: map<nat, Space>, p: nat, a: Alloc)
    requires HeldIs(held, allocs, spaces) && 1 <= p
    ensures HeldIs(held[BlockAt(p) := BlockPages(p, a)], allocs[p := a], spaces)
  {
    hide Owned, BlockPages;
  }

  lemma HeldSame(held: Held, allocs: map<nat, Alloc>, spaces: map<nat, Space>, p: nat, a: Alloc)
    requires HeldIs(held, allocs, spaces) && p in allocs && a.pages == allocs[p].pages
    ensures HeldIs(held, allocs[p := a], spaces)
  {
    hide Owned;
  }

  lemma HeldNoBlock(held: Held, allocs: map<nat, Alloc>, spaces: map<nat, Space>, p: nat)
    requires HeldIs(held, allocs, spaces)
    ensures HeldIs(held - {BlockAt(p)}, allocs - {p}, spaces)
  {
    hide Owned, BlockPages;
  }

  lemma HeldSpace(held: Held, allocs: map<nat, Alloc>, spaces: map<nat, Space>, p: nat, s: Space)
    requires HeldIs(held, allocs, spaces)
    ensures HeldIs(held[SpaceAt(p) := Owned(s)], allocs, spaces[p := s])
  {
    hide Owned, BlockPages;
  }

  lemma HeldNoSpace(held: Held, allocs: map<nat, Alloc>, spaces: map<nat, Space>, p: nat)
    requires HeldIs(held, allocs, spaces)
    ensures HeldIs(held - {SpaceAt(p)}, allocs, spaces - {p})
  {
    hide Owned, BlockPages;
  }

  lemma BlockHeld(held: Held, allocs: map<nat, Alloc>, spaces: map<nat, Space>, p: nat)
    requires HeldIs(held, allocs, spaces)
    ensures p in allocs <==> BlockAt(p) in held
    ensures p in allocs ==> 1 <= p && held[BlockAt(p)] == BlockPages(p, allocs[p])
  {
    hide Owned, BlockPages;
  }

  lemma SpaceHeld(held: Held, allocs: map<nat, Alloc>, spaces: map<nat, Space>, p: nat)
    requires HeldIs(held, allocs, spaces)
    ensures p in spaces <==> SpaceAt(p) in held
    ensures p in spaces ==> held[SpaceAt(p)] == Owned(spaces[p])
  {
    hide Owned, BlockPages;
  }

  lemma OnlyBlocks(k: Kernel, k': Kernel, p: nat)
    requires k'.mem == k.mem && k'.spaces == k.spaces
    requires forall r :: r != p && r in k.allocs ==> r in k'.allocs && k'.allocs[r] == k.allocs[r]
    ensures OthersSame(k, k', p)
  {
    hide Owned;
  }

  // Memory changed where the address space at `p` is, or where pages were free.
  lemma OnlySpace(k: Kernel, held: Held, reserved: set<nat>, k': Kernel, changed: set<nat>, p: nat)
    requires KernelOk(k, held, reserved) && Kept(k.mem, k'.mem, changed) && MemOk(k'.mem)
    requires changed <= FreePages(k.bits) + if p in k.spaces then Owned(k.spaces[p]) else {}
    requires k'.allocs == k.allocs && forall r :: r != p && r in k.spaces ==> r in k'.spaces && k'.spaces[r] == k.spaces[r]
    ensures forall r :: r != p && r in k.spaces ==> SpaceFine(k'.mem, k.spaces[r])
    ensures OthersSame(k, k', p)
  {
    hide SpaceFine, Owned, FreePages, Balanced, HeldIs;
    forall r | r != p && r in k.spaces
      ensures SpaceFine(k'.mem, k.spaces[r]) && SameSpace(k, k', r)
    {
      OthersUntouched(k, held, reserved, k'.mem, changed, p, r);
    }
  }

  // ---------- blocks ----------

  lemma BlockAdded(k: Kernel, held: Held, reserved: set<nat>, s: nat, a: Alloc, cur: nat)
    requires KernelOk(k, held, reserved) && FreeRun(k.bits, s, a.pages + 1) && BlockOk(a) && cur <= |k.bits|
    ensures s + 1 !in k.allocs && s + 1 !in k.spaces && BlockPages(s + 1, a) == Run(s, s + a.pages + 1)
    ensures var k' := k.(bits := Marked(k.bits, s, a.pages + 1, true), cur := cur, allocs := k.allocs[s + 1 := a]);
            KernelOk(k', held[BlockAt(s + 1) := BlockPages(s + 1, a)], reserved) && OthersSame(k, k', s + 1)
  {
    hide SpaceFine, Owned, Run, Balanced, HeldIs, OthersSame, SpacesFine;
    var p, taken := s + 1, Run(s, s + a.pages + 1);
    MarkedPages(k.bits, s, a.pages + 1, true);
    BlockHeld(held, k.allocs, k.spaces, p);
    if p in k.allocs {
      assert s in held[BlockAt(p)];
      HeldAlone(|k.bits|, reserved, FreePages(k.bits), held, BlockAt(p), s);
    }
    assert taken <= FreePages(k.bits);
    Acquire(|k.bits|, reserved, FreePages(k.bits), held, BlockAt(p), taken);
    HeldBlock(held, k.allocs, k.spaces, p, a);
    OnlyBlocks(k, k.(bits := Marked(k.bits, s, a.pages + 1, true), cur := cur, allocs := k.allocs[p := a]), p);
  }

  lemma BlockDropped(k: Kernel, held: Held, reserved: set<nat>, p: nat)
    requires KernelOk(k, held, reserved) && p in k.allocs && p !in k.spaces
    ensures 1 <= p && p + k.allocs[p].pages <= |k.bits|
    ensures var k' := k.(bits := Marked(k.bits, p - 1, k.allocs[p].pages + 1, false), allocs := k.allocs - {p});
            && KernelOk(k', held - {BlockAt(p)}, reserved) && OthersSame(k, k', p)
            && FreePages(k'.bits) == FreePages(k.bits) + BlockPages(p, k.allocs[p])
            && BlockPages(p, k.allocs[p]) !! FreePages(k.bits)
  {
    hide SpaceFine, Owned, Run, FreePages, Balanced, HeldIs, OthersSame, SpacesFine;
    BlockInside(k, held, reserved, p);
    BlockHeld(held, k.allocs, k.spaces, p);
    MarkedPages(k.bits, p - 1, k.allocs[p].pages + 1, false);
    Release(|k.bits|, reserved, FreePages(k.bits), held, BlockAt(p));
    HeldNoBlock(held, k.allocs, k.spaces, p);
    var k' := k.(bits := Marked(k.bits, p - 1, k.allocs[p].pages + 1, false), allocs := k.allocs - {p});
    OnlyBlocks(k, k', p);
  }

  lemma BlockInside(k: Kernel, held: Held, reserved: set<nat>, p: nat)
    requires KernelOk(k, held, reserved) && p in k.allocs
    ensures 1 <= p && p + k.allocs[p].pages <= |k.bits|
  {
    hide SpaceFine, Owned, Run, FreePages, Balanced, HeldIs, SpacesFine;
    BlockHeld(held, k.allocs, k.spaces, p);
    var last := p + k.allocs[p].pages - 1;
    assert last in held[BlockAt(p)];
    HeldAlone(|k.bits|, reserved, FreePages(k.bits), held, BlockAt(p), last);
  }

  // A block changed on the same pages.
  lemma BlockChanged(k: Kernel, held: Held, reserved: set<nat>, p: nat, a: Alloc)
    requires KernelOk(k, held, reserved) && p in k.allocs && p !in k.spaces && BlockOk(a) && a.pages == k.allocs[p].pages
    ensures var k' := k.(allocs := k.allocs[p := a]);
            KernelOk(k', held, reserved) && OthersSame(k, k', p)
  {
    hide SpaceFine, Owned, FreePages, Balanced, SpacesFine, OthersSame, HeldIs;
    HeldSame(held, k.allocs, k.spaces, p, a);
    OnlyBlocks(k, k.(allocs := k.allocs[p := a]), p);
  }

  lemma KernelBound(k: Kernel, held: Held, reserved: set<nat>)
    requires KernelOk(k, held, reserved)
    ensures k.cur <= |k.bits| == |k.mem| && MemOk(k.mem) && BitmapOk(k.Map())
  {
  }

  // Where the next search starts is nobody's.
  lemma KernelMoved(k: Kernel, held: Held, reserved: set<nat>, cur: nat)
    requires KernelOk(k, held, reserved) && cur <= |k.bits|
    ensures KernelOk(k.(cur := cur), held, reserved)
  {
    hide SpacesFine, BlocksFine, HeldIs, Balanced;
  }

  lemma NoNullBlock(k: Kernel, held: Held, reserved: set<nat>, p: nat)
    requires KernelOk(k, held, reserved)
    ensures 0 !in k.allocs && (p in k.allocs ==> BlockOk(k.allocs[p]))
  {
    hide SpacesFine, HeldIs, Balanced;
  }

  // ---------- address spaces ----------

  lemma SpaceAdded(k: Kernel, held: Held, reserved: set<nat>, p: nat, s: Space, mem: seq<Page>, bits: seq<bool>, cur: nat)
    requires KernelOk(k, held, reserved) && p in k.allocs && p !in k.spaces
    requires Kept(k.mem, mem, FreePages(k.bits)) && MemOk(mem) && cur <= |bits| == |k.bits| && SpaceFine(mem, s)
    requires Owned(s) <= FreePages(k.bits) && FreePages(bits) == FreePages(k.bits) - Owned(s)
    ensures var k' := Kernel(mem, bits, cur, k.allocs, k.spaces[p := s]);
            KernelOk(k', held[SpaceAt(p) := Owned(s)], reserved) && OthersSame(k, k', p)
  {
    hide SpaceFine, Owned, FreePages, Balanced, HeldIs, OthersSame, BlocksFine;
    OnlySpace(k, held, reserved, Kernel(mem, bits, cur, k.allocs, k.spaces[p := s]), FreePages(k.bits), p);
    SpaceHeld(held, k.allocs, k.spaces, p);
    HeldSpace(held, k.allocs, k.spaces, p, s);
    Acquire(|k.bits|, reserved, FreePages(k.bits), held, SpaceAt(p), Owned(s));
  }

  lemma SpaceGrown(k: Kernel, held: Held, reserved: set<nat>, p: nat, s: Space, taken: set<nat>, mem: seq<Page>,
                   bits: seq<bool>, cur: nat)
    requires KernelOk(k, held, reserved) && p in k.spaces
    requires Kept(k.mem, mem, FreePages(k.bits) + Owned(k.spaces[p])) && MemOk(mem) && cur <= |bits| == |k.bits|
    requires SpaceFine(mem, s) && Owned(s) == Owned(k.spaces[p]) + taken
    requires taken <= FreePages(k.bits) && FreePages(bits) == FreePages(k.bits) - taken
    ensures var k' := Kernel(mem, bits, cur, k.allocs, k.spaces[p := s]);
            KernelOk(k', held[SpaceAt(p) := Owned(s)], reserved) && OthersSame(k, k', p)
  {
    hide SpaceFine, Owned, FreePages, Balanced, HeldIs, OthersSame, BlocksFine;
    var changed := FreePages(k.bits) + Owned(k.spaces[p]);
    OnlySpace(k, held, reserved, Kernel(mem, bits, cur, k.allocs, k.spaces[p := s]), changed, p);
    SpaceHeld(held, k.allocs, k.spaces, p);
    HeldSpace(held, k.allocs, k.spaces, p, s);
    Extend(|k.bits|, reserved, FreePages(k.bits), held, SpaceAt(p), taken);
  }

  lemma SpaceDropped(k: Kernel, held: Held, reserved: set<nat>, p: nat, bits: seq<bool>)
    requires KernelOk(k, held, reserved) && p in k.spaces && |bits| == |k.bits|
    requires FreePages(bits) == FreePages(k.bits) + Owned(k.spaces[p])
    ensures var k' := k.(bits := bits, spaces := k.spaces - {p});
            KernelOk(k', held - {SpaceAt(p)}, reserved) && OthersSame(k, k', p)
  {
    hide SpaceFine, Owned, FreePages, Balanced, HeldIs, OthersSame, BlocksFine;
    SpaceHeld(held, k.allocs, k.spaces, p);
    HeldNoSpace(held, k.allocs, k.spaces, p);
    Release(|k.bits|, reserved, FreePages(k.bits), held, SpaceAt(p));
    assert Kept(k.mem, k.mem, {});
    OnlySpace(k, held, reserved, k.(bits := bits, spaces := k.spaces - {p}), {}, p);
  }

  // What an address space owns is in memory and not free.
  lemma SpaceInside(k: Kernel, held: Held, reserved: set<nat>, p: nat)
    requires KernelOk(k, held, reserved) && p in k.spaces
    ensures Owned(k.spaces[p]) !! FreePages(k.bits) && Owned(k.spaces[p]) !! reserved
    ensures forall x :: x in Owned(k.spaces[p]) ==> x < |k.mem|
  {
    hide SpaceFine, Owned, FreePages, HeldIs, BlocksFine, SpacesFine;
    SpaceHeld(held, k.allocs, k.spaces, p);
  }

  lemma OthersTwice(a: Kernel, b: Kernel, c: Kernel, p: nat)
    requires OthersSame(a, b, p) && OthersSame(b, c, p) && |a.mem| == |b.mem|
    ensures OthersSame(a, c, p)
  {
    hide Owned;
    forall r | r != p
      ensures SameBlock(a, c, r) && SameSpace(a, c, r)
    {
      assert SameBlock(a, b, r) && SameSpace(a, b, r);
      assert SameBlock(b, c, r) && SameSpace(b, c, r);
    }
  }

  // The address space at `p` can be given tables from the free pages.
  lemma SpaceReady(k: Kernel, held: Held, reserved: set<nat>, p: nat, free: set<nat>)
    requires KernelOk(k, held, reserved) && p in k.spaces && free <= FreePages(k.bits)
    ensures SpaceOk(k.mem, free, k.spaces[p].root, k.spaces[p].tabs, 256)
    ensures SpaceFine(k.mem, k.spaces[p])
  {
    hide SpaceFine, Owned, Balanced, HeldIs, BlocksFine;
    SpaceInside(k, held, reserved, p);
    TablesOwned(k.spaces[p], k.mem);
    OwnsTree(k.mem, k.spaces[p]);
  }

  // One more page in an address space: its frame and its new tables come from the free pages.
  lemma PageAdded(mem: seq<Page>, mem': seq<Page>, s: Space, f: nat, q: Path, tabs': map<Path, nat>, free: set<nat>,
                  free': set<nat>)
    requires SpaceFine(mem, s) && IsPage(q, 256) && q !in s.data
    requires SpaceOk(mem', free', s.root, tabs', 256) && Grew(free, s.tabs, free', tabs') && free' <= free
    requires Leaf(mem', tabs', q) == Word(f, 7) && SameLeaves(mem, s.tabs, mem', tabs', q)
    requires Owned(s) !! free && f !in Owned(s) && f !in free
    ensures SpaceFine(mem', Space(s.root, tabs', s.data[q := f]))
    ensures Owned(Space(s.root, tabs', s.data[q := f])) == Owned(s) + ({f} + (free - free'))
  {
    hide SpaceFine, SpaceOk, Leaf, Injective, Owned, IsPage, SameLeaves, Frames;
    TablesOwned(s, mem);
    PageOwned(mem, mem', s, f, q, tabs', free');
    SpaceTree(mem', free', s.root, tabs', 256);
    GrewFrames(free, Frames(s.tabs), free', Frames(tabs'));
    TreeShape(mem', s.root, tabs', 256);
    DataShape(mem, s);
    PageLength(q, 256);
    PageAddedApart(s, tabs', q, f, free - free');
    OwnedIs(s);
    OwnedIs(Space(s.root, tabs', s.data[q := f]));
    FineIs(mem', Space(s.root, tabs', s.data[q := f]));
  }

  lemma OwnedIs(s: Space)
    ensures Owned(s) == (s.tabs + s.data).Values
  {
  }

  lemma FineIs(mem: seq<Page>, s: Space)
    ensures SpaceFine(mem, s) <==> Owns(mem, s.root, s.tabs, s.data, 256) && Injective(s.tabs + s.data)
  {
  }

  lemma DataShape(mem: seq<Page>, s: Space)
    requires SpaceFine(mem, s)
    ensures Injective(s.tabs + s.data) && forall c :: c in s.data ==> |c| == LEVELS
  {
  }

  lemma SpaceTree(mem: seq<Page>, free: set<nat>, root: nat, tabs: map<Path, nat>, top: nat)
    requires SpaceOk(mem, free, root, tabs, top)
    ensures TreeOk(mem, root, tabs, top) && Frames(tabs) !! free
  {
  }

  lemma PageOwned(mem: seq<Page>, mem': seq<Page>, s: Space, f: nat, q: Path, tabs': map<Path, nat>, free': set<nat>)
    requires SpaceFine(mem, s) && IsPage(q, 256) && SpaceOk(mem', free', s.root, tabs', 256)
    requires Leaf(mem', tabs', q) == Word(f, 7) && SameLeaves(mem, s.tabs, mem', tabs', q)
    ensures Owns(mem', s.root, tabs', s.data[q := f], 256)
  {
    hide TreeOk, Leaf, Injective;
  }

  lemma GrewFrames(free: set<nat>, frames: set<nat>, free': set<nat>, frames': set<nat>)
    requires free' + frames' == free + frames && frames' !! free' && frames !! free && free' <= free
    ensures frames' == frames + (free - free')
  {
  }

  lemma TreeShape(mem: seq<Page>, root: nat, tabs: map<Path, nat>, top: nat)
    requires TreeOk(mem, root, tabs, top)
    ensures forall c :: c in tabs ==> |c| < LEVELS
    ensures Injective(tabs)
  {
  }

  lemma PageAddedApart(s: Space, tabs': map<Path, nat>, q: Path, f: nat, new_: set<nat>)
    requires Injective(s.tabs + s.data) && Injective(tabs') && |q| == LEVELS && q !in s.data
    requires (forall c :: c in s.data ==> |c| == LEVELS && s.data[c] in Owned(s))
    requires (forall c :: c in tabs' ==> |c| < LEVELS) && (forall c :: c in s.tabs ==> c in tabs' && tabs'[c] == s.tabs[c])
    requires Frames(tabs') == Frames(s.tabs) + new_ && Owned(s) !! new_ && f !in Owned(s) && f !in new_
    requires Frames(s.tabs) <= Owned(s)
    ensures Injective(tabs' + s.data[q := f])
    ensures (tabs' + s.data[q := f]).Values == Owned(s) + ({f} + new_)
  {
    hide Injective;
    var all, all' := s.tabs + s.data, tabs' + s.data[q := f];
    forall c | c in all'
      ensures c in tabs' ==> all'[c] == tabs'[c] && all'[c] in Frames(tabs')
      ensures c !in tabs' && c != q ==> c in s.data && all'[c] == s.data[c] == all[c]
    {
      FrameOrPage(tabs', s.data[q := f], c);
    }
    forall c | c in s.tabs
      ensures all[c] == s.tabs[c]
    {
      assert c !in s.data;
    }
    ApartFromTables(s, tabs', q, f, new_);
    PageAddedValues(s, tabs', q, f, new_);
  }

  lemma PageAddedValues(s: Space, tabs': map<Path, nat>, q: Path, f: nat, new_: set<nat>)
    requires |q| == LEVELS && q !in s.data
    requires (forall c :: c in s.data ==> |c| == LEVELS)
    requires (forall c :: c in tabs' ==> |c| < LEVELS) && (forall c :: c in s.tabs ==> c in tabs' && tabs'[c] == s.tabs[c])
    requires Frames(tabs') == Frames(s.tabs) + new_
    ensures forall v :: v in Owned(s) + ({f} + new_) ==> v in (tabs' + s.data[q := f]).Values
  {
    var all, all' := s.tabs + s.data, tabs' + s.data[q := f];
    forall v | v in Owned(s) + ({f} + new_)
      ensures v in all'.Values
    {
      if v == f {
        assert all'[q] == f;
      } else if v in new_ {
        assert v in Frames(tabs');
        var c :| c in tabs' && tabs'[c] == v;
        assert all'[c] == v;
      } else {
        var c :| c in all && all[c] == v;
        assert all'[c] == v;
      }
    }
  }

  lemma FrameOrPage(tabs: map<Path, nat>, data: map<Path, nat>, c: Path)
    requires c in tabs + data
    ensures c in tabs && c !in data ==> (tabs + data)[c] == tabs[c] && tabs[c] in Frames(tabs)
    ensures c in data ==> (tabs + data)[c] == data[c]
  {
  }

  lemma ApartFromTables(s: Space, tabs': map<Path, nat>, q: Path, f: nat, new_: set<nat>)
    requires Injective(s.tabs + s.data) && Injective(tabs') && |q| == LEVELS && q !in s.data
    requires (forall c :: c in s.data ==> |c| == LEVELS && s.data[c] in Owned(s))
    requires (forall c :: c in tabs' ==> |c| < LEVELS) && (forall c :: c in s.tabs ==> c in tabs' && tabs'[c] == s.tabs[c])
    requires Frames(tabs') == Frames(s.tabs) + new_ && Owned(s) !! new_ && f !in Owned(s) && f !in new_
    requires Frames(s.tabs) <= Owned(s)
    ensures Injective(tabs' + s.data[q := f])
  {
    var all' := tabs' + s.data[q := f];
    forall c, d | c in all' && d in all' && all'[c] == all'[d]
      ensures c == d
    {
      if c in s.data && d in s.data && c != q && d != q {
        assert (s.tabs + s.data)[c] == (s.tabs + s.data)[d];
      } else if c in tabs' && d in tabs' {
        assert c !in s.data[q := f] && d !in s.data[q := f];
      } else {
        MixedApart(s, tabs', q, f, new_, c, d);
        MixedApart(s, tabs', q, f, new_, d, c);
      }
    }
  }

  // A table and a page, or the new page and an old one, are in different frames.
  lemma MixedApart(s: Space, tabs': map<Path, nat>, q: Path, f: nat, new_: set<nat>, c: Path, d: Path)
    requires Injective(s.tabs + s.data) && |q| == LEVELS && q !in s.data
    requires (forall x :: x in s.data ==> |x| == LEVELS && s.data[x] in Owned(s))
    requires (forall x :: x in tabs' ==> |x| < LEVELS) && (forall x :: x in s.tabs ==> x in tabs')
    requires Frames(tabs') == Frames(s.tabs) + new_ && Owned(s) !! new_ && f !in Owned(s) && f !in new_
    requires Frames(s.tabs) <= Owned(s)
    ensures c in tabs' && d in s.data ==> tabs'[c] != s.data[d]
    ensures c in tabs' ==> tabs'[c] != f
    ensures d in s.data ==> s.data[d] != f
  {
    if c in tabs' {
      assert tabs'[c] in Frames(tabs');
      if d in s.data && tabs'[c] in Frames(s.tabs) {
        var t :| t in s.tabs && s.tabs[t] == tabs'[c];
        assert t !in s.data && t != d;
        assert (s.tabs + s.data)[t] == s.tabs[t] && (s.tabs + s.data)[d] == s.data[d];
      }
    }
  }

  // ---------- lemmas for the operations ----------

  // The address space at `p` has a fresh zeroed page at `q`; its other pages and translations, and
  // everything else, are as they were.
  ghost predicate PageGiven(k: Kernel, k': Kernel, p: nat, q: Path) {
    && p in k.spaces && p in k'.spaces && q in k'.spaces[p].data && OthersSame(k, k', p) && k'.allocs == k.allocs
    && var s, s', f := k.spaces[p], k'.spaces[p], k'.spaces[p].data[q];
       && k'.spaces == k.spaces[p := s'] && s'.root == s.root && s'.data == s.data[q := f]
       && f in FreePages(k.bits) && f < |k'.mem| && k'.mem[f] == ZeroPage()
       && Leaf(k'.mem, s'.tabs, q) == Word(f, 7) && SameLeaves(k.mem, s.tabs, k'.mem, s'.tabs, q)
       && forall x :: x in s.data ==> s.data[x] < |k'.mem| == |k.mem| && k'.mem[s.data[x]] == k.mem[s.data[x]]
  }

  ghost predicate NewPages(free: set<nat>, free': set<nat>, taken: set<nat>) {
    taken <= free && free' == free - taken
  }

  lemma EmptySpace(mem: seq<Page>, root: nat)
    requires MemOk(mem) && root < |mem| && mem[root] == ZeroPage()
    ensures SpaceFine(mem, Space(root, map[[] := root], map[])) && Owned(Space(root, map[[] := root], map[])) == {root}
  {
    FreshRoot(mem, {}, root, 256);
    EmptyOwned(root);
  }

  lemma ZeroKept(mem: seq<Page>, free: set<nat>, f: nat)
    requires f in free && f < |mem|
    ensures Kept(mem, mem[f := ZeroPage()], free)
  {
  }

  lemma KeptAgain(mem: seq<Page>, mem': seq<Page>, changed: set<nat>, more: set<nat>)
    requires Kept(mem, mem', changed) && changed <= more
    ensures Kept(mem, mem', more)
  {
  }

  lemma PageIs(q: Path, top: nat)
    requires |q| == LEVELS && Within(q, top)
    ensures IsPage(q, top)
  {
  }

  // After a free page was zeroed the address space at `p` is still there.
  lemma SpaceStill(k: Kernel, held: Held, reserved: set<nat>, p: nat, mem: seq<Page>, f: nat, free: set<nat>, q: Path)
    requires KernelOk(k, held, reserved) && p in k.spaces && f in FreePages(k.bits) && f < |k.mem| && free <= FreePages(k.bits)
    requires mem == k.mem[f := ZeroPage()] && MemOk(mem)
    ensures SpaceFine(mem, k.spaces[p])
    ensures SpaceOk(mem, free, k.spaces[p].root, k.spaces[p].tabs, 256)
    ensures SameLeaves(k.mem, k.spaces[p].tabs, mem, k.spaces[p].tabs, q)
  {
    hide SpaceFine, Owned, Balanced, HeldIs, BlocksFine, FreePages, SpacesFine, TreeOk, Leaf;
    SpaceReady(k, held, reserved, p, FreePages(k.bits));
    SpaceInside(k, held, reserved, p);
    var s := k.spaces[p];
    ZeroKept(k.mem, {f}, f);
    SpaceUntouched(k.mem, mem, s, {f});
    TablesOwned(s, k.mem);
    OwnsTree(k.mem, s);
    TablesInMemory(k.mem, s.root, s.tabs, 256);
    TreeFrame(k.mem, s.root, s.tabs, 256, mem);
    KernelBound(k, held, reserved);
  }

  // A zeroed page mapped at `q` in the address space at `p`: the page and the tables come from the
  // free pages, everybody else keeps what they have.
  lemma PageGrown(k: Kernel, held: Held, reserved: set<nat>, p: nat, mem1: seq<Page>, mem2: seq<Page>, f: nat, q: Path,
                  tabs': map<Path, nat>, free1: set<nat>, free2: set<nat>, bits: seq<bool>, cur: nat)
    requires KernelOk(k, held, reserved) && p in k.spaces && f in FreePages(k.bits) && f !in free1
    requires free1 <= FreePages(k.bits) && FreePages(bits) == FreePages(k.bits) - ({f} + (free1 - free2))
    requires cur <= |bits| == |k.bits| && f < |k.mem| && mem1 == k.mem[f := ZeroPage()] && SpaceFine(mem1, k.spaces[p])
    requires IsPage(q, 256) && q !in k.spaces[p].data && MemOk(mem2)
    requires SpaceOk(mem2, free2, k.spaces[p].root, tabs', 256) && Grew(free1, k.spaces[p].tabs, free2, tabs') && free2 <= free1
    requires Kept(mem1, mem2, free1 + Frames(k.spaces[p].tabs))
    requires Leaf(mem2, tabs', q) == Word(f, 7) && SameLeaves(mem1, k.spaces[p].tabs, mem2, tabs', q)
    ensures var s := Space(k.spaces[p].root, tabs', k.spaces[p].data[q := f]);
            var k' := Kernel(mem2, bits, cur, k.allocs, k.spaces[p := s]);
            KernelOk(k', held[SpaceAt(p) := Owned(s)], reserved) && OthersSame(k, k', p)
  {
    hide SpaceFine, SpaceOk, Owned, FreePages, KernelOk, OthersSame, Leaf, IsPage, SameLeaves, Frames, Grew, Kept;
    var s := k.spaces[p];
    var s' := Space(s.root, tabs', s.data[q := f]);
    SpaceInside(k, held, reserved, p);
    TablesOwned(s, mem1);
    PageAdded(mem1, mem2, s, f, q, tabs', free1, free2);
    KernelBound(k, held, reserved);
    KeptTwice(k.mem, mem1, mem2, f, free1, Frames(s.tabs), FreePages(k.bits) + Owned(s));
    SpaceGrown(k, held, reserved, p, s', {f} + (free1 - free2), mem2, bits, cur);
  }

  // The new page is zero, and the old pages hold what they held.
  lemma PagesKept(k: Kernel, held: Held, reserved: set<nat>, p: nat, mem1: seq<Page>, mem2: seq<Page>, f: nat, free1: set<nat>)
    requires KernelOk(k, held, reserved) && p in k.spaces && f in FreePages(k.bits) && f !in free1
    requires free1 <= FreePages(k.bits) && f < |k.mem| && mem1 == k.mem[f := ZeroPage()]
    requires Kept(mem1, mem2, free1 + Frames(k.spaces[p].tabs))
    ensures f < |mem2| && mem2[f] == ZeroPage()
    ensures forall x :: x in k.spaces[p].data ==>
              k.spaces[p].data[x] < |mem2| == |k.mem| && mem2[k.spaces[p].data[x]] == k.mem[k.spaces[p].data[x]]
  {
    hide SpaceFine, Owned, FreePages, KernelOk, Frames;
    var s := k.spaces[p];
    SpaceInside(k, held, reserved, p);
    SpaceReady(k, held, reserved, p, FreePages(k.bits));
    TablesOwned(s, k.mem);
    DataOutside(k.mem, s);
  }

  // What mapping the page did, in terms of all free pages.
  lemma PageTaken(k: Kernel, held: Held, reserved: set<nat>, p: nat, mem1: seq<Page>, mem2: seq<Page>, f: nat, q: Path,
                  tabs': map<Path, nat>, free1: set<nat>, free2: set<nat>, past: set<nat>, bits: seq<bool>, cur: nat)
    requires KernelOk(k, held, reserved) && p in k.spaces && f in FreePages(k.bits) && f !in free1
    requires FreePages(k.bits) == past + free1 + {f} && past !! free1 + {f} && FreePages(bits) == past + free2
    requires cur <= |bits| == |k.bits| && f < |k.mem| && mem1 == k.mem[f := ZeroPage()] && SpaceFine(mem1, k.spaces[p])
    requires IsPage(q, 256) && q !in k.spaces[p].data
    requires SpaceOk(mem2, free2, k.spaces[p].root, tabs', 256) && Grew(free1, k.spaces[p].tabs, free2, tabs')
    requires Kept(mem1, mem2, free1 + Frames(k.spaces[p].tabs))
    requires SameLeaves(k.mem, k.spaces[p].tabs, mem1, k.spaces[p].tabs, q)
    requires Leaf(mem2, tabs', q) == Word(f, 7) && SameLeaves(mem1, k.spaces[p].tabs, mem2, tabs', q)
    ensures var s := Space(k.spaces[p].root, tabs', k.spaces[p].data[q := f]);
            var k' := Kernel(mem2, bits, cur, k.allocs, k.spaces[p := s]);
            KernelOk(k', held[SpaceAt(p) := Owned(s)], reserved) && PageGiven(k, k', p, q)
    ensures free2 <= free1
  {
    hide SpaceFine, Owned, FreePages, KernelOk, OthersSame, Leaf, IsPage, SameLeaves, Frames, Grew, Kept, SpaceOk;
    var s := k.spaces[p];
    SpaceReady(k, held, reserved, p, free1);
    SpaceTree(k.mem, free1, s.root, s.tabs, 256);
    FewerFree(mem2, free1, s.tabs, free2, s.root, tabs');
    SpaceMem(mem2, free2, s.root, tabs', 256);
    PageGrown(k, held, reserved, p, mem1, mem2, f, q, tabs', free1, free2, bits, cur);
    LeavesTwice(k.mem, mem1, mem2, s.tabs, tabs', q);
    PagesKept(k, held, reserved, p, mem1, mem2, f, free1);
  }

  lemma LeavesTwice(mem: seq<Page>, mem1: seq<Page>, mem2: seq<Page>, tabs: map<Path, nat>, tabs': map<Path, nat>, q: Path)
    requires SameLeaves(mem, tabs, mem1, tabs, q) && SameLeaves(mem1, tabs, mem2, tabs', q)
    ensures SameLeaves(mem, tabs, mem2, tabs', q)
  {
    hide Leaf;
  }

  lemma SpaceMem(mem: seq<Page>, free: set<nat>, root: nat, tabs: map<Path, nat>, top: nat)
    requires SpaceOk(mem, free, root, tabs, top)
    ensures MemOk(mem)
  {
  }

  lemma FewerFree(mem: seq<Page>, free: set<nat>, tabs: map<Path, nat>, free': set<nat>, root: nat, tabs': map<Path, nat>)
    requires SpaceOk(mem, free', root, tabs', 256) && Grew(free, tabs, free', tabs') && Frames(tabs) !! free
    ensures free' <= free
  {
    hide TreeOk;
    forall x | x in Frames(tabs)
      ensures x in Frames(tabs')
    {
      var c :| c in tabs && tabs[c] == x;
      assert tabs'[c] == x;
    }
  }

  lemma KeptTwice(mem: seq<Page>, mem1: seq<Page>, mem2: seq<Page>, f: nat, free: set<nat>, tables: set<nat>, all: set<nat>)
    requires f < |mem| && mem1 == mem[f := ZeroPage()] && Kept(mem1, mem2, free + tables) && {f} + free + tables <= all
    ensures Kept(mem, mem2, all)
  {
  }

  // The pages of an address space are none of its tables.
  lemma DataOutside(mem: seq<Page>, s: Space)
    requires SpaceFine(mem, s)
    ensures forall q :: q in s.data ==> s.data[q] !in Frames(s.tabs)
  {
    hide Owns;
    TablesOwned(s, mem);
    forall q, c | q in s.data && c in s.tabs
      ensures s.data[q] != s.tabs[c]
    {
      assert (s.tabs + s.data)[c] == s.tabs[c] && (s.tabs + s.data)[q] == s.data[q] && c != q;
    }
  }

  // ---------- consecutive pages ----------

  // Page `q` is one of the `n` from number `first` on.
  ghost predicate InRange(q: Path, first: nat, n: nat) {
    |q| == LEVELS && first <= NumberOf(q) < first + n
  }

  // The pages of a range are in the user's half and not mapped.
  ghost predicate Unmapped(s: Space, virt: bv64, n: nat) {
    && PathOf(virt)[0] < 256 && NumberOf(PathOf(virt)) + n <= USER_PAGES
    && var first := NumberOf(PathOf(virt));
       forall k :: first <= k < first + n ==> PathFrom(k) !in s.data
  }

  // What the address space at `p` had, it still has: pages, contents and translations outside the range.
  ghost predicate RangeKept(mem: seq<Page>, s: Space, mem': seq<Page>, s': Space, first: nat, n: nat) {
    && s'.root == s.root && |mem'| == |mem|
    && (forall q :: q in s.data ==> q in s'.data && s'.data[q] == s.data[q])
    && (forall q :: q in s'.data && q !in s.data ==> InRange(q, first, n))
    && (forall q :: InRange(q, first, n) || Leaf(mem', s'.tabs, q) == Leaf(mem, s.tabs, q))
    && (forall q :: q in s.data ==> s.data[q] < |mem| && mem'[s.data[q]] == mem[s.data[q]])
  }

  // Page number `k` is a zeroed page, in frame `base` if it is the first.
  ghost predicate ZeroAt(mem: seq<Page>, s: Space, k: nat, first: nat, base: nat)
    requires first <= k < USER_PAGES
  {
    var q, f := PathFrom(k), base + (k - first);
    q in s.data && s.data[q] == f && f < |mem| && mem[f] == ZeroPage() && Leaf(mem, s.tabs, q) == Word(f, 7)
  }

  // And it has `n` zeroed pages from number `first` on, in the frames from `base` on.
  ghost predicate RangeMapped(mem: seq<Page>, s: Space, first: nat, base: nat, n: nat) {
    first + n <= USER_PAGES && forall k :: first <= k < first + n ==> ZeroAt(mem, s, k, first, base)
  }

  ghost predicate RangeGiven(k: Kernel, k': Kernel, p: nat, first: nat, base: nat, n: nat) {
    && p in k.spaces && p in k'.spaces && OthersSame(k, k', p) && k'.allocs == k.allocs
    && k'.spaces == k.spaces[p := k'.spaces[p]]
    && RangeKept(k.mem, k.spaces[p], k'.mem, k'.spaces[p], first, n)
    && RangeMapped(k'.mem, k'.spaces[p], first, base, n)
  }

  lemma RangeNext(k: Kernel, k1: Kernel, k2: Kernel, p: nat, first: nat, base: nat, n: nat)
    requires RangeGiven(k, k1, p, first, base, n) && first + n < USER_PAGES && |k.mem| == |k1.mem| == |k2.mem|
    requires PageGiven(k1, k2, p, PathFrom(first + n)) && k2.spaces[p].data[PathFrom(first + n)] == base + n
    requires PathFrom(first + n) !in k.spaces[p].data
    ensures RangeGiven(k, k2, p, first, base, n + 1)
  {
    hide RangeKept, RangeMapped, OthersSame, SameLeaves, Leaf;
    OthersTwice(k, k1, k2, p);
    RangeKeptNext(k, k1, k2, p, first, n);
    RangeMappedNext(k1, k2, p, first, base, n);
  }

  lemma RangeKeptNext(k: Kernel, k1: Kernel, k2: Kernel, p: nat, first: nat, n: nat)
    requires p in k.spaces && p in k1.spaces && RangeKept(k.mem, k.spaces[p], k1.mem, k1.spaces[p], first, n)
    requires first + n < USER_PAGES && |k.mem| == |k1.mem| == |k2.mem|
    requires PageGiven(k1, k2, p, PathFrom(first + n)) && PathFrom(first + n) !in k.spaces[p].data
    ensures RangeKept(k.mem, k.spaces[p], k2.mem, k2.spaces[p], first, n + 1)
  {
    hide Leaf, OthersSame, PathFrom, NumberOf;
    var x := PathFrom(first + n);
    NumberBack(first + n);
    assert InRange(x, first, n + 1);
    forall q
      ensures InRange(q, first, n) ==> InRange(q, first, n + 1)
    {
    }
  }

  lemma RangeMappedNext(k1: Kernel, k2: Kernel, p: nat, first: nat, base: nat, n: nat)
    requires p in k1.spaces && RangeMapped(k1.mem, k1.spaces[p], first, base, n) && first + n < USER_PAGES
    requires |k1.mem| == |k2.mem| && PageGiven(k1, k2, p, PathFrom(first + n))
    requires p in k2.spaces && k2.spaces[p].data[PathFrom(first + n)] == base + n
    ensures RangeMapped(k2.mem, k2.spaces[p], first, base, n + 1)
  {
    hide PathFrom, ZeroAt, PageGiven;
    forall k | first <= k < first + n + 1
      ensures ZeroAt(k2.mem, k2.spaces[p], k, first, base)
    {
      if k < first + n {
        assert ZeroAt(k1.mem, k1.spaces[p], k, first, base);
        ZeroStays(k1, k2, p, k, first + n, first, base);
      } else {
        ZeroNew(k1, k2, p, k, first, base);
      }
    }
  }

  lemma ZeroNew(k1: Kernel, k2: Kernel, p: nat, k: nat, first: nat, base: nat)
    requires first <= k < USER_PAGES && PageGiven(k1, k2, p, PathFrom(k))
    requires k2.spaces[p].data[PathFrom(k)] == base + (k - first)
    ensures ZeroAt(k2.mem, k2.spaces[p], k, first, base)
  {
    hide Leaf, OthersSame, PathFrom;
  }

  lemma ZeroStays(k1: Kernel, k2: Kernel, p: nat, k: nat, x: nat, first: nat, base: nat)
    requires first <= k < x < USER_PAGES && p in k1.spaces && ZeroAt(k1.mem, k1.spaces[p], k, first, base)
    requires PageGiven(k1, k2, p, PathFrom(x))
    ensures ZeroAt(k2.mem, k2.spaces[p], k, first, base)
  {
    hide Leaf, OthersSame, PathFrom;
    NumberBack(k);
    NumberBack(x);
  }

  // Before the first page is mapped, only free pages have changed.
  lemma RangeBegins(k: Kernel, held: Held, reserved: set<nat>, p: nat, mem: seq<Page>, cur: nat, first: nat, base: nat)
    requires KernelOk(k, held, reserved) && p in k.spaces && Kept(k.mem, mem, FreePages(k.bits)) && MemOk(mem)
    requires cur <= |k.bits| && first <= USER_PAGES
    ensures var k' := k.(mem := mem, cur := cur);
            KernelOk(k', held, reserved) && RangeGiven(k, k', p, first, base, 0)
  {
    hide SpaceFine, Owned, FreePages, Balanced, HeldIs, OthersSame, BlocksFine, Leaf, RangeKept, TreeOk;
    var k' := k.(mem := mem, cur := cur);
    NoRecordAtNull(k, held, reserved);
    OnlySpace(k, held, reserved, k', FreePages(k.bits), 0);
    SpaceInside(k, held, reserved, p);
    KeptFree(k, held, reserved, p, mem);
    SameIsOthers(k, k', p);
  }

  lemma SameIsOthers(k: Kernel, k': Kernel, p: nat)
    requires OthersSame(k, k', 0)
    requires SameBlock(k, k', 0) && SameSpace(k, k', 0)
    ensures OthersSame(k, k', p)
  {
    hide SameBlock, SameSpace;
  }

  lemma NoRecordAtNull(k: Kernel, held: Held, reserved: set<nat>)
    requires KernelOk(k, held, reserved)
    ensures 0 !in k.spaces && 0 !in k.allocs
  {
    hide SpacesFine, HeldIs, Balanced;
  }

  lemma KeptFree(k: Kernel, held: Held, reserved: set<nat>, p: nat, mem: seq<Page>)
    requires KernelOk(k, held, reserved) && p in k.spaces && Kept(k.mem, mem, FreePages(k.bits)) && MemOk(mem)
    ensures RangeKept(k.mem, k.spaces[p], mem, k.spaces[p], 0, 0)
    ensures forall first :: RangeKept(k.mem, k.spaces[p], mem, k.spaces[p], first, 0)
  {
    hide SpaceFine, Owned, FreePages, Balanced, HeldIs, BlocksFine, SpacesFine, TreeOk, Leaf, PathFrom, NumberOf;
    var s := k.spaces[p];
    SpaceReady(k, held, reserved, p, {});
    SpaceInside(k, held, reserved, p);
    TablesOwned(s, k.mem);
    OwnsTree(k.mem, s);
    TablesInMemory(k.mem, s.root, s.tabs, 256);
    TreeFrame(k.mem, s.root, s.tabs, 256, mem);
  }

  lemma RangeAdvances(k: Kernel, k1: Kernel, k2: Kernel, p: nat, first: nat, base: nat, n: nat)
    requires RangeGiven(k, k1, p, first, base, n) && first + n < USER_PAGES && |k.mem| == |k1.mem| == |k2.mem|
    requires PageGiven(k1, k2, p, PathFrom(first + n)) && k2.spaces[p].data[PathFrom(first + n)] == base + n
    requires PathFrom(first + n) !in k.spaces[p].data
    ensures RangeGiven(k, k2, p, first, base, n + 1) && p in k1.spaces && p in k2.spaces
    ensures k2.spaces[p].root == k1.spaces[p].root
  {
    hide OthersSame, SameLeaves, Leaf, PathFrom;
    RangeNext(k, k1, k2, p, first, base, n);
  }

  lemma RangeRoot(k: Kernel, k': Kernel, p: nat, first: nat, base: nat, n: nat)
    requires RangeGiven(k, k', p, first, base, n)
    ensures p in k.spaces && p in k'.spaces && k'.spaces[p].root == k.spaces[p].root
    ensures k'.allocs == k.allocs && k'.spaces == k.spaces[p := k'.spaces[p]] && |k'.mem| == |k.mem|
  {
    hide OthersSame, Leaf, PathFrom;
  }

  lemma UnmappedInside(s: Space, virt: bv64, n: nat)
    requires Unmapped(s, virt, n)
    ensures NumberOf(PathOf(virt)) + n <= USER_PAGES
  {
    hide PathOf, PathFrom;
  }

  // The next page of the range is not mapped yet, neither at first nor now.
  lemma NextUnmapped(k: Kernel, k1: Kernel, p: nat, virt: bv64, base: nat, i: nat, n: nat)
    requires p in k.spaces && Unmapped(k.spaces[p], virt, n) && i < n
    requires RangeGiven(k, k1, p, NumberOf(PathOf(virt)), base, i)
    ensures var first := NumberOf(PathOf(virt));
            && first + n <= USER_PAGES && p in k1.spaces
            && PathFrom(first + i) !in k.spaces[p].data && PathFrom(first + i) !in k1.spaces[p].data
            && Within(PathFrom(first + i), 256)
  {
    hide Leaf, OthersSame, PathOf, PathFrom, NumberOf, ZeroAt;
    var first := NumberOf(PathOf(virt));
    NumberBack(first + i);
    assert PathFrom(first + i) !in k.spaces[p].data;
  }

  lemma RangeStarts(k: Kernel, held: Held, reserved: set<nat>, p: nat, tabs: map<Path, nat>, free: nat, virt: bv64, n: nat)
    requires KernelOk(k, held, reserved) && p in k.spaces && tabs == k.spaces[p].tabs && Unmapped(k.spaces[p], virt, n)
    ensures NumberOf(PathOf(virt)) + n <= USER_PAGES
    ensures TablesSoFar(tabs, free, tabs, free, NumberOf(PathOf(virt)), 0)
    ensures n > 0 ==> PathOf(virt) == PathFrom(NumberOf(PathOf(virt)))
  {
    hide SpaceFine, Owned, FreePages, Balanced, HeldIs, BlocksFine, SpacesFine, PathFrom;
    PathBack(PathOf(virt));
  }

  // A zeroed run of free pages.
  lemma ZeroedRun(mem: seq<Page>, mem': seq<Page>, start: nat, n: nat, free: set<nat>)
    requires |mem'| == |mem| && start + n <= |mem| && Run(start, start + n) <= free
    requires forall x :: 0 <= x < |mem| ==> mem'[x] == if start <= x < start + n then ZeroPage() else mem[x]
    ensures Kept(mem, mem', free)
  {
    hide Run;
    forall x | 0 <= x < |mem| && x !in free
      ensures mem'[x] == mem[x]
    {
      assert x !in Run(start, start + n);
    }
  }

  lemma FirstOfRun(f: nat, left: nat)
    ensures Run(f, f + 1 + left) == {f} + Run(f + 1, f + 1 + left) && f !in Run(f + 1, f + 1 + left)
  {
    RunSplit(f, f + 1, f + 1 + left);
    assert Run(f, f + 1) == {f};
  }

  // Part of a run of zeroed pages is still to be mapped: `left` pages from `f` on, which to the kernel
  // `k` are still free, although their bits are set.
  ghost predicate Mapping(k: Kernel, held: Held, reserved: set<nat>, p: nat, mem: seq<Page>, bits: seq<bool>, cur: nat,
                          f: nat, left: nat) {
    && KernelOk(k, held, reserved) && p in k.spaces && k.mem == mem && k.cur == cur && |k.bits| == |bits|
    && f + left <= |bits| && NewPages(FreePages(k.bits), FreePages(bits), Run(f, f + left))
    && forall x :: f <= x < f + left && x < |mem| ==> mem[x] == ZeroPage()
  }

  lemma FreshReady(k: Kernel, held: Held, reserved: set<nat>, p: nat, mem: seq<Page>, bits: seq<bool>, cur: nat, f: nat,
                   left: nat)
    requires Mapping(k, held, reserved, p, mem, bits, cur, f, left)
    ensures cur <= |bits| == |mem| && MemOk(mem)
    ensures SpaceOk(mem, Ahead(bits, cur), k.spaces[p].root, k.spaces[p].tabs, 256)
  {
    hide KernelOk, FreePages, Ahead, Behind, SpaceOk, MemOk;
    KernelBound(k, held, reserved);
    FreeSplit(bits, cur);
    SpaceReady(k, held, reserved, p, Ahead(bits, cur));
  }

  // The kernel once the first of them is mapped at `q`.
  ghost function FreshKernel(k: Kernel, p: nat, mem: seq<Page>, bits: seq<bool>, cur: nat, f: nat, left: nat, q: Path,
                             tabs: map<Path, nat>): Kernel
    requires p in k.spaces && f + left <= |bits| && left > 0
  {
    var s := k.spaces[p];
    Kernel(mem, Marked(bits, f + 1, left - 1, false), cur, k.allocs, k.spaces[p := Space(s.root, tabs, s.data[q := f])])
  }

  lemma FreshMapped(k: Kernel, held: Held, reserved: set<nat>, p: nat, mem: seq<Page>, bits: seq<bool>, cur: nat, f: nat,
                    left: nat, q: Path, mem2: seq<Page>, bits2: seq<bool>, cur2: nat, tabs: map<Path, nat>)
    requires Mapping(k, held, reserved, p, mem, bits, cur, f, left) && left > 0 && IsPage(q, 256) && q !in k.spaces[p].data
    requires cur2 <= |bits2| == |bits| && Behind(bits2, cur2) == Behind(bits, cur)
    requires SpaceOk(mem2, Ahead(bits2, cur2), k.spaces[p].root, tabs, 256)
    requires Grew(Ahead(bits, cur), k.spaces[p].tabs, Ahead(bits2, cur2), tabs)
    requires Kept(mem, mem2, Ahead(bits, cur) + Frames(k.spaces[p].tabs))
    requires Leaf(mem2, tabs, q) == Word(f, 7) && SameLeaves(mem, k.spaces[p].tabs, mem2, tabs, q)
    ensures var k' := FreshKernel(k, p, mem2, bits2, cur2, f, left, q, tabs);
            && p in k'.spaces
            && Mapping(k', held[SpaceAt(p) := Owned(k'.spaces[p])], reserved, p, mem2, bits2, cur2, f + 1, left - 1)
            && PageGiven(k, k', p, q) && k'.spaces[p].data[q] == f && k'.spaces[p].tabs == tabs
            && |Ahead(bits2, cur2)| + |tabs| == |Ahead(bits, cur)| + |k.spaces[p].tabs| && |mem2| == |mem|
  {
    hide SameLeaves, PageGiven, IsPage, KernelOk, FreePages, Ahead, Behind, OthersSame, Owned, SpaceOk, Leaf, Frames, Grew,
      Kept, Run, Marked, FreshKernel;
    FreshFine(k, held, reserved, p, mem, bits, cur, f, left, q, mem2, bits2, cur2, tabs);
    FreshRest(k, held, reserved, p, mem, bits, cur, f, left, q, mem2, bits2, cur2, tabs);
  }

  lemma FreshFine(k: Kernel, held: Held, reserved: set<nat>, p: nat, mem: seq<Page>, bits: seq<bool>, cur: nat, f: nat,
                    left: nat, q: Path, mem2: seq<Page>, bits2: seq<bool>, cur2: nat, tabs: map<Path, nat>)
    requires Mapping(k, held, reserved, p, mem, bits, cur, f, left) && left > 0 && IsPage(q, 256) && q !in k.spaces[p].data
    requires cur2 <= |bits2| == |bits| && Behind(bits2, cur2) == Behind(bits, cur)
    requires SpaceOk(mem2, Ahead(bits2, cur2), k.spaces[p].root, tabs, 256)
    requires Grew(Ahead(bits, cur), k.spaces[p].tabs, Ahead(bits2, cur2), tabs)
    requires Kept(mem, mem2, Ahead(bits, cur) + Frames(k.spaces[p].tabs))
    requires Leaf(mem2, tabs, q) == Word(f, 7) && SameLeaves(mem, k.spaces[p].tabs, mem2, tabs, q)
    ensures var k' := FreshKernel(k, p, mem2, bits2, cur2, f, left, q, tabs);
            && p in k'.spaces && KernelOk(k', held[SpaceAt(p) := Owned(k'.spaces[p])], reserved)
            && PageGiven(k, k', p, q) && k'.spaces[p].data[q] == f && k'.spaces[p].tabs == tabs
            && k'.mem == mem2 && k'.cur == cur2 && |k'.bits| == |bits2|
            && FreePages(k'.bits) == FreePages(bits2) + Run(f + 1, f + left)
  {
    hide SameLeaves, PageGiven, IsPage, KernelOk, FreePages, Ahead, Behind, OthersSame, Owned, SpaceFine, SpaceOk, Leaf,
      TreeOk, MemOk, Frames, Grew, Kept, Run, Marked, Injective;
    var free1, free2, rest := Ahead(bits, cur), Ahead(bits2, cur2), Run(f + 1, f + left);
    KernelBound(k, held, reserved);
    FreeSplit(bits, cur);
    FreeSplit(bits2, cur2);
    FirstOfRun(f, left - 1);
    assert mem == k.mem[f := ZeroPage()];
    SpaceStill(k, held, reserved, p, mem, f, free1, q);
    MarkedPages(bits2, f + 1, left - 1, false);
    MarkedLength(bits2, f + 1, left - 1);
    var bits3 := Marked(bits2, f + 1, left - 1, false);
    PageTaken(k, held, reserved, p, mem, mem2, f, q, tabs, free1, free2, Behind(bits, cur) + rest, bits3, cur2);
    assert q in k.spaces[p].data[q := f];
  }

  lemma FreshRest(k: Kernel, held: Held, reserved: set<nat>, p: nat, mem: seq<Page>, bits: seq<bool>, cur: nat, f: nat,
                    left: nat, q: Path, mem2: seq<Page>, bits2: seq<bool>, cur2: nat, tabs: map<Path, nat>)
    requires Mapping(k, held, reserved, p, mem, bits, cur, f, left) && left > 0 && IsPage(q, 256) && q !in k.spaces[p].data
    requires cur2 <= |bits2| == |bits| && Behind(bits2, cur2) == Behind(bits, cur)
    requires SpaceOk(mem2, Ahead(bits2, cur2), k.spaces[p].root, tabs, 256)
    requires Grew(Ahead(bits, cur), k.spaces[p].tabs, Ahead(bits2, cur2), tabs)
    requires Kept(mem, mem2, Ahead(bits, cur) + Frames(k.spaces[p].tabs))
    requires Leaf(mem2, tabs, q) == Word(f, 7) && SameLeaves(mem, k.spaces[p].tabs, mem2, tabs, q)
    ensures NewPages(FreePages(bits2) + Run(f + 1, f + left), FreePages(bits2), Run(f + 1, f + left))
    ensures |Ahead(bits2, cur2)| + |tabs| == |Ahead(bits, cur)| + |k.spaces[p].tabs| && |mem2| == |mem|
    ensures forall x :: f + 1 <= x < f + left && x < |mem2| ==> mem2[x] == ZeroPage()
  {
    hide SameLeaves, IsPage, KernelOk, FreePages, Ahead, Behind, Owned, SpaceOk, Leaf, Frames, Grew, Kept, Run, Marked;
    var s, free1, free2, rest := k.spaces[p], Ahead(bits, cur), Ahead(bits2, cur2), Run(f + 1, f + left);
    FreeSplit(bits, cur);
    FreeSplit(bits2, cur2);
    FirstOfRun(f, left - 1);
    RestKept(k, held, reserved, p, mem, mem2, free1, rest);
    SpaceReady(k, held, reserved, p, free1);
    SpaceTree(k.mem, free1, s.root, s.tabs, 256);
    FewerFree(mem2, free1, s.tabs, free2, s.root, tabs);
    RestStillFree(FreePages(k.bits), FreePages(bits), FreePages(bits2), f, left - 1);
    GrewCount(free1, s.tabs, free2, tabs);
    KeptLength(mem, mem2, free1 + Frames(s.tabs));
    RestZero(mem, mem2, f, left);
  }

  lemma RestZero(mem: seq<Page>, mem': seq<Page>, f: nat, left: nat)
    requires left > 0 && |mem'| == |mem| && forall x :: f <= x < f + left && x < |mem| ==> mem[x] == ZeroPage()
    requires forall x :: x in Run(f + 1, f + left) && x < |mem| ==> x < |mem'| && mem'[x] == mem[x]
    ensures forall x :: f + 1 <= x < f + left && x < |mem'| ==> mem'[x] == ZeroPage()
  {
    hide Run;
    forall x | f + 1 <= x < f + left && x < |mem'|
      ensures mem'[x] == ZeroPage()
    {
      assert x in Run(f + 1, f + left);
    }
  }

  lemma MappingRoom(k: Kernel, held: Held, reserved: set<nat>, p: nat, mem: seq<Page>, bits: seq<bool>, cur: nat, f: nat,
                    left: nat)
    requires Mapping(k, held, reserved, p, mem, bits, cur, f, left)
    ensures p in k.spaces && k.mem == mem && KernelOk(k, held, reserved) && |k.bits| == |bits| && f + left <= |bits|
  {
    hide KernelOk, FreePages, Run;
  }

  lemma MappingBegins(k: Kernel, held: Held, reserved: set<nat>, p: nat, mem: seq<Page>, bits: seq<bool>, cur: nat, f: nat,
                      left: nat)
    requires KernelOk(k, held, reserved) && p in k.spaces && k.mem == mem && k.cur == cur && |k.bits| == |bits|
    requires f + left <= |bits| && Run(f, f + left) <= FreePages(k.bits)
    requires FreePages(bits) == FreePages(k.bits) - Run(f, f + left)
    requires forall x :: f <= x < f + left && x < |mem| ==> mem[x] == ZeroPage()
    ensures Mapping(k, held, reserved, p, mem, bits, cur, f, left)
  {
    hide KernelOk, FreePages, Run;
  }

  lemma TablesNext(tabs0: map<Path, nat>, free0: nat, tabs: map<Path, nat>, free: nat, tabs': map<Path, nat>, free': nat,
                   first: nat, m: nat)
    requires first + m < USER_PAGES && TablesSoFar(tabs0, free0, tabs, free, first, m)
    requires tabs'.Keys == tabs.Keys + Above(PathFrom(first + m)) && free' + |tabs'| == free + |tabs|
    ensures TablesSoFar(tabs0, free0, tabs', free', first, m + 1)
  {
    hide Above, PathFrom;
    AboveRangeNext(first, m);
  }

  // Nothing is left to be mapped.
  lemma MappingDone(k: Kernel, held: Held, reserved: set<nat>, p: nat, mem: seq<Page>, bits: seq<bool>, cur: nat, f: nat)
    requires Mapping(k, held, reserved, p, mem, bits, cur, f, 0)
    ensures KernelOk(k, held, reserved) && k.mem == mem && k.bits == bits && k.cur == cur && p in k.spaces
  {
    hide KernelOk, FreePages, Run;
    NothingOfRun(f);
    BitmapDetermined(k.bits, bits);
  }

  // What is left of the run is still free to the kernel, and to nobody else.
  lemma RestStillFree(free: set<nat>, before: set<nat>, after: set<nat>, f: nat, left: nat)
    requires NewPages(free, before, Run(f, f + 1 + left)) && after <= before
    ensures NewPages(after + Run(f + 1, f + 1 + left), after, Run(f + 1, f + 1 + left))
  {
    hide Run;
    FirstOfRun(f, left);
  }

  lemma NothingOfRun(f: nat)
    ensures Run(f, f) == {}
  {
  }

  lemma GrewCount(free: set<nat>, tabs: map<Path, nat>, free': set<nat>, tabs': map<Path, nat>)
    requires Grew(free, tabs, free', tabs')
    ensures |free'| + |tabs'| == |free| + |tabs|
  {
  }

  lemma MarkedLength(bits: seq<bool>, s: nat, n: nat)
    requires s + n <= |bits|
    ensures |Marked(bits, s, n, false)| == |bits|
  {
  }

  // ---------- room for the tables of a range ----------

  ghost function AboveRange(first: nat, n: nat): set<Path>
    requires first + n <= USER_PAGES
  {
    if n == 0 then {} else AboveRange(first, n - 1) + Above(PathFrom(first + n - 1))
  }

  // Enough pages are ahead for the tables that the range needs and the address space has not.
  ghost predicate TablesFit(free: nat, tabs: map<Path, nat>, first: nat, n: nat)
    requires first + n <= USER_PAGES
  {
    |AboveRange(first, n) - tabs.Keys| <= free
  }

  lemma {:induction false} AboveRangeMore(first: nat, m: nat, n: nat)
    requires m <= n && first + n <= USER_PAGES
    ensures AboveRange(first, m) <= AboveRange(first, n)
    decreases n
  {
    hide Above, PathFrom;
    if m < n {
      AboveRangeMore(first, m, n - 1);
    }
  }

  // The tables so far, against those the address space had.
  ghost predicate TablesSoFar(tabs0: map<Path, nat>, free0: nat, tabs: map<Path, nat>, free: nat, first: nat, m: nat)
    requires first + m <= USER_PAGES
  {
    tabs.Keys == tabs0.Keys + AboveRange(first, m) && free + |tabs| == free0 + |tabs0|
  }

  lemma AddedTables(a: set<Path>, b: set<Path>)
    ensures |a + b| == |a| + |b - a|
  {
    assert a + b == a + (b - a);
  }

  lemma TablesEnough(tabs0: map<Path, nat>, free0: nat, tabs: map<Path, nat>, free: nat, first: nat, n: nat)
    requires first + n <= USER_PAGES && TablesSoFar(tabs0, free0, tabs, free, first, n)
    ensures TablesFit(free0, tabs0, first, n)
  {
    AddedTables(tabs0.Keys, AboveRange(first, n));
    assert |tabs0| == |tabs0.Keys| && |tabs| == |tabs.Keys|;
  }

  lemma TablesLack(tabs0: map<Path, nat>, free0: nat, tabs: map<Path, nat>, free: nat, first: nat, m: nat, n: nat)
    requires m < n && first + n <= USER_PAGES && TablesSoFar(tabs0, free0, tabs, free, first, m)
    requires Missing(PathFrom(first + m), tabs) > free
    ensures !TablesFit(free0, tabs0, first, n)
  {
    hide Above, PathFrom, AboveRange;
    var more := Above(PathFrom(first + m));
    AboveRangeMore(first, m + 1, n);
    AboveRangeNext(first, m);
    SizeLacks(tabs0.Keys, tabs.Keys, AboveRange(first, m), more, AboveRange(first, n), free0, free);
    assert |tabs0| == |tabs0.Keys| && |tabs| == |tabs.Keys|;
  }

  lemma AboveRangeNext(first: nat, m: nat)
    requires first + m < USER_PAGES
    ensures AboveRange(first, m + 1) == AboveRange(first, m) + Above(PathFrom(first + m))
  {
  }

  lemma SizeLacks(keys0: set<Path>, keys: set<Path>, some: set<Path>, more: set<Path>, all: set<Path>, free0: nat, free: nat)
    requires keys == keys0 + some && some + more <= all && |more - keys| > free && free + |keys| == free0 + |keys0|
    ensures |all - keys0| > free0
  {
    AddedTables(keys, more);
    AddedTables(keys0, some + more);
    assert keys + more == keys0 + (some + more);
    SubsetSize((some + more) - keys0, all - keys0);
  }

  // The pages are found, and enough lie behind them for the tables they need.
  ghost predicate RangeFits(b: Bitmap, tabs: map<Path, nat>, virt: bv64, n: nat)
    requires BitmapOk(b) && NumberOf(PathOf(virt)) + n <= USER_PAGES
  {
    Servable(b, n) && TablesFit(|Ahead(Taken(b, n).bits, Taken(b, n).cur)|, tabs, NumberOf(PathOf(virt)), n)
  }

  // Pages of a run not yet mapped are no tables and not free any more, so mapping leaves them alone.
  lemma RestKept(k: Kernel, held: Held, reserved: set<nat>, p: nat, mem: seq<Page>, mem': seq<Page>, free: set<nat>,
                 rest: set<nat>)
    requires KernelOk(k, held, reserved) && p in k.spaces && Kept(mem, mem', free + Frames(k.spaces[p].tabs))
    requires rest <= FreePages(k.bits) && rest !! free
    ensures forall x :: x in rest && x < |mem| ==> x < |mem'| && mem'[x] == mem[x]
  {
    hide SpaceFine, Owned, FreePages, KernelOk, Frames;
    SpaceInside(k, held, reserved, p);
    SpaceReady(k, held, reserved, p, {});
    TablesOwned(k.spaces[p], k.mem);
  }

  // ---------- changing flags ----------

  // Only the flags of page `q` of the address space at `p` have changed.
  ghost predicate FlagsChanged(k: Kernel, k': Kernel, p: nat, q: Path, flags: nat) {
    && p in k.spaces && OthersSame(k, k', p) && k' == k.(mem := k'.mem) && |k'.mem| == |k.mem| && flags < PAGE
    && var s := k.spaces[p];
       && q in s.data && Leaf(k'.mem, s.tabs, q) == Word(s.data[q], flags)
       && SameLeaves(k.mem, s.tabs, k'.mem, s.tabs, q)
       && forall x :: x in s.data ==> s.data[x] < |k.mem| && k'.mem[s.data[x]] == k.mem[s.data[x]]
  }

  lemma FlagsKept(k: Kernel, held: Held, reserved: set<nat>, p: nat, q: Path, flags: nat, mem: seq<Page>)
    requires KernelOk(k, held, reserved) && p in k.spaces && q in k.spaces[p].data && flags < PAGE && flags % 2 == 1
    requires TreeOk(mem, k.spaces[p].root, k.spaces[p].tabs, 256) && Kept(k.mem, mem, Frames(k.spaces[p].tabs))
    requires SameLeaves(k.mem, k.spaces[p].tabs, mem, k.spaces[p].tabs, q)
    requires Leaf(mem, k.spaces[p].tabs, q) == Word(FrameOf(Leaf(k.mem, k.spaces[p].tabs, q)), flags)
    ensures KernelOk(k.(mem := mem), held, reserved) && FlagsChanged(k, k.(mem := mem), p, q, flags)
  {
    hide SpaceFine, Owned, FreePages, KernelOk, OthersSame, Leaf, TreeOk, Frames, MemOk;
    var s := k.spaces[p];
    SpaceInside(k, held, reserved, p);
    SpaceReady(k, held, reserved, p, {});
    TablesOwned(s, k.mem);
    FlagsFine(k.mem, s, q, flags, mem);
    TreeMem(mem, s.root, s.tabs, 256);
    KernelBound(k, held, reserved);
    KeptAgain(k.mem, mem, Frames(s.tabs), FreePages(k.bits) + Owned(s));
    SpaceGrown(k, held, reserved, p, s, {}, mem, k.bits, k.cur);
    assert k.spaces[p := s] == k.spaces && k.(mem := mem) == Kernel(mem, k.bits, k.cur, k.allocs, k.spaces[p := s]);
    HeldAlready(k, held, reserved, p);
    DataOutside(k.mem, s);
    FlagsLeaf(k.mem, s, q);
  }

  lemma HeldAlready(k: Kernel, held: Held, reserved: set<nat>, p: nat)
    requires KernelOk(k, held, reserved) && p in k.spaces
    ensures held == held[SpaceAt(p) := Owned(k.spaces[p])]
  {
    hide SpaceFine, Owned, FreePages, Balanced, HeldIs, BlocksFine, SpacesFine;
    SpaceHeld(held, k.allocs, k.spaces, p);
  }

  lemma FlagsLeaf(mem: seq<Page>, s: Space, q: Path)
    requires SpaceFine(mem, s) && q in s.data
    ensures s.data[q] == FrameOf(Leaf(mem, s.tabs, q))
  {
    hide TreeOk, Leaf, Injective;
  }

  lemma TreeMem(mem: seq<Page>, root: nat, tabs: map<Path, nat>, top: nat)
    requires TreeOk(mem, root, tabs, top)
    ensures MemOk(mem)
  {
  }

  lemma FlagsFine(mem: seq<Page>, s: Space, q: Path, flags: nat, mem': seq<Page>)
    requires SpaceFine(mem, s) && q in s.data && flags < PAGE && flags % 2 == 1 && TreeOk(mem', s.root, s.tabs, 256)
    requires SameLeaves(mem, s.tabs, mem', s.tabs, q)
    requires Leaf(mem', s.tabs, q) == Word(FrameOf(Leaf(mem, s.tabs, q)), flags)
    ensures SpaceFine(mem', s)
  {
    hide TreeOk, Leaf, Injective;
  }

  // ---------- forking ----------

  // The parent at `p` may be forked into the empty address space at `c`.
  lemma ForkReady(k: Kernel, held: Held, reserved: set<nat>, p: nat, c: nat)
    requires KernelOk(k, held, reserved) && p in k.spaces && c in k.spaces && p != c
    ensures var s, root := k.spaces[p], k.spaces[c].root;
            ParentOk(k.mem, FreePages(k.bits) + {root}, s.root, s.tabs, 256) && PagesOf(k.mem, s.tabs, s.data.Keys)
    ensures k.spaces[c].root < |k.mem| && k.spaces[c].root !in FreePages(k.bits) && k.spaces[c].root !in reserved
  {
    hide FreePages, Owned, SpaceFine, HeldIs, Balanced, BlocksFine;
    SpaceInside(k, held, reserved, p);
    SpaceInside(k, held, reserved, c);
    OwnedApart(k, held, reserved, c, p);
    RootOwned(k.mem, k.spaces[c]);
    SpaceAsParent(k.mem, k.spaces[p], FreePages(k.bits) + {k.spaces[c].root});
  }

  lemma RootOwned(mem: seq<Page>, s: Space)
    requires SpaceFine(mem, s)
    ensures s.root in Owned(s)
  {
    hide Owned;
    TablesOwned(s, mem);
  }

  lemma SpaceAsParent(mem: seq<Page>, s: Space, free: set<nat>)
    requires SpaceFine(mem, s) && Owned(s) !! free && forall x :: x in Owned(s) ==> x < |mem|
    ensures ParentOk(mem, free, s.root, s.tabs, 256) && PagesOf(mem, s.tabs, s.data.Keys)
  {
    hide Owned, IsPage, Leaf, TreeOk, Injective;
    TablesOwned(s, mem);
  }

  // The child at `c` once the fork is done.
  lemma ForkMade(k: Kernel, held: Held, reserved: set<nat>, c: nat, otabs: map<Path, nat>, ntabs: map<Path, nat>,
                 copied: map<Path, nat>, mem: seq<Page>, bits: seq<bool>, cur: nat)
    requires KernelOk(k, held, reserved) && c in k.spaces
    requires k.spaces[c].tabs == map[[] := k.spaces[c].root] && k.spaces[c].data == map[]
    requires SpaceOk(mem, FreePages(bits), k.spaces[c].root, ntabs, 256) && cur <= |bits| == |k.bits|
    requires ForkedFrom(k.mem, otabs, mem, ntabs, 256, copied) && Kept(k.mem, mem, FreePages(k.bits) + {k.spaces[c].root})
    requires FramesConserved(FreePages(k.bits) + {k.spaces[c].root}, FreePages(bits), ntabs, copied)
    ensures var s := Space(k.spaces[c].root, ntabs, copied);
            var k' := Kernel(mem, bits, cur, k.allocs, k.spaces[c := s]);
            KernelOk(k', held[SpaceAt(c) := Owned(s)], reserved) && OthersSame(k, k', c)
            && FreePages(k.bits) + {k.spaces[c].root} == FreePages(bits) + Owned(s)
  {
    hide KernelOk, Owns, Injective, ForkedFrom, FreePages, SpaceOk, Frames, OthersSame;
    var root := k.spaces[c].root;
    SpaceMem(mem, FreePages(bits), root, ntabs, 256);
    EmptyOwned(root);
    assert k.spaces[c] == Space(root, map[[] := root], map[]);
    ForkCanBeFreed(k.mem, otabs, mem, FreePages(k.bits) + {root}, FreePages(bits), root, ntabs, copied);
    RootNotCopied(mem, FreePages(k.bits) + {root}, FreePages(bits), root, ntabs, copied);
    SpaceInside(k, held, reserved, c);
    OwnsRoot(mem, root, ntabs, copied, 256);
    assert root in (ntabs + copied).Values;
    var s := Space(root, ntabs, copied);
    OwnedIs(s);
    SpaceGrown(k, held, reserved, c, s, FreePages(k.bits) - FreePages(bits), mem, bits, cur);
  }

  lemma EmptyOwned(root: nat)
    ensures Owned(Space(root, map[[] := root], map[])) == {root}
  {
    var s := Space(root, map[[] := root], map[]);
    assert s.tabs + s.data == s.tabs;
    OneFrame(root);
  }

  // The address space at `c` is a copy of the one at `p`: the same pages with the same contents and
  // flags in frames of its own, under the kernel's half of the root.
  ghost predicate Forked(k: Kernel, k': Kernel, p: nat, c: nat, kernelRoot: nat) {
    && p in k.spaces && c !in k.allocs && c in k'.allocs && c in k'.spaces
    && OthersSame(k, k', c) && k'.spaces == k.spaces[c := k'.spaces[c]] && k'.allocs == k.allocs[c := k'.allocs[c]]
    && var s, s' := k.spaces[p], k'.spaces[c];
       && ForkedFrom(k.mem, s.tabs, k'.mem, s'.tabs, 256, s'.data) && s'.data.Keys == s.data.Keys
       && s'.root < |k'.mem| && |k'.mem[s'.root]| == ENTRIES && kernelRoot < |k.mem| && |k.mem[kernelRoot]| == ENTRIES
       && forall i :: 256 <= i < ENTRIES ==> k'.mem[s'.root][i] == k.mem[kernelRoot][i]
  }

  // The parent did not change while the child's record and root were made.
  lemma ForkedEarlier(k0: Kernel, k: Kernel, p: nat, mem: seq<Page>, ntabs: map<Path, nat>, copied: map<Path, nat>)
    requires SameSpace(k0, k, p) && p in k0.spaces && SpaceFine(k0.mem, k0.spaces[p]) && |k0.mem| == |k.mem|
    requires forall x :: x in Owned(k0.spaces[p]) ==> x < |k0.mem|
    requires ForkedFrom(k.mem, k0.spaces[p].tabs, mem, ntabs, 256, copied)
    ensures ForkedFrom(k0.mem, k0.spaces[p].tabs, mem, ntabs, 256, copied)
  {
    hide Leaf, IsPage, TreeOk, Injective, Owned;
    var s := k0.spaces[p];
    TablesOwned(s, k0.mem);
    forall q
      ensures Leaf(k.mem, s.tabs, q) == Leaf(k0.mem, s.tabs, q)
    {
      SameTranslation(k0, k, p, q);
    }
  }

  lemma ForkIs(k0: Kernel, k: Kernel, k': Kernel, p: nat, c: nat, kernelRoot: nat)
    requires p in k0.spaces && c !in k0.allocs && c in k.spaces && c in k.allocs && OthersSame(k0, k', c)
    requires k.spaces == k0.spaces[c := k.spaces[c]] && k.allocs == k0.allocs[c := k.allocs[c]]
    requires c in k'.spaces && k'.spaces == k.spaces[c := k'.spaces[c]] && k'.allocs == k.allocs
    requires var s, s' := k0.spaces[p], k'.spaces[c];
             && ForkedFrom(k0.mem, s.tabs, k'.mem, s'.tabs, 256, s'.data) && s'.data.Keys == s.data.Keys
             && s'.root < |k'.mem| && |k'.mem[s'.root]| == ENTRIES && kernelRoot < |k0.mem| && |k0.mem[kernelRoot]| == ENTRIES
             && kernelRoot < |k.mem| && k.mem[kernelRoot] == k0.mem[kernelRoot]
             && forall i :: 256 <= i < ENTRIES ==> k'.mem[s'.root][i] == k.mem[kernelRoot][i]
    ensures Forked(k0, k', p, c, kernelRoot)
  {
    hide ForkedFrom, OthersSame;
  }

  // What the block and the address space at `c` take, and giving them back returns.
  ghost predicate Charged(k: Kernel, k': Kernel, c: nat) {
    && 1 <= c && c in k'.allocs && c in k'.spaces && |k'.bits| == |k.bits|
    && FreePages(k.bits) == FreePages(k'.bits) + BlockPages(c, k'.allocs[c]) + Owned(k'.spaces[c])
  }

  lemma ChargedMore(k0: Kernel, k: Kernel, k': Kernel, c: nat, root: nat)
    requires 1 <= c && c in k.allocs && c in k'.spaces && k'.allocs == k.allocs && |k0.bits| == |k.bits| == |k'.bits|
    requires NewPages(FreePages(k0.bits), FreePages(k.bits), BlockPages(c, k.allocs[c]) + {root})
    requires FreePages(k.bits) + {root} == FreePages(k'.bits) + Owned(k'.spaces[c])
    ensures Charged(k0, k', c)
  {
    hide FreePages, BlockPages, Owned;
    var block := BlockPages(c, k.allocs[c]);
    assert FreePages(k0.bits) == FreePages(k.bits) + (block + {root});
    assert FreePages(k0.bits) == FreePages(k'.bits) + Owned(k'.spaces[c]) + block;
  }

  // Another address space is not the one just made.
  lemma KeptSpace(k0: Kernel, held: Held, reserved: set<nat>, k: Kernel, p: nat, c: nat)
    requires KernelOk(k0, held, reserved) && p in k0.spaces && c !in k0.allocs && OthersSame(k0, k, c)
    ensures p != c && p in k.spaces && k.spaces[p] == k0.spaces[p] && SameSpace(k0, k, p)
  {
    hide Owned, SpacesFine, BlocksFine, HeldIs, Balanced;
    assert p in k0.allocs;
    assert SameBlock(k0, k, p) && SameSpace(k0, k, p);
  }

  lemma KeptAt(mem: seq<Page>, mem': seq<Page>, changed: set<nat>, x: nat)
    requires Kept(mem, mem', changed) && x < |mem| && x !in changed
    ensures x < |mem'| && mem'[x] == mem[x]
  {
  }

  // A reserved page is not free.
  lemma ReservedInside(k: Kernel, held: Held, reserved: set<nat>, x: nat)
    requires KernelOk(k, held, reserved) && x in reserved
    ensures x < |k.mem| && x !in FreePages(k.bits) && |k.mem[x]| == ENTRIES
  {
    hide FreePages, HeldIs, SpacesFine, BlocksFine;
  }

  lemma RecordOf(k: Kernel, held: Held, reserved: set<nat>, p: nat)
    requires KernelOk(k, held, reserved) && p in k.spaces
    ensures p in k.allocs && 1 <= p
  {
    hide SpacesFine, HeldIs, Balanced;
  }

  // Once the child is gone nothing of it is left.
  lemma NothingLeft(k0: Kernel, held: Held, reserved: set<nat>, k1: Kernel, k2: Kernel, p: nat, c: nat, kernelRoot: nat)
    requires KernelOk(k0, held, reserved) && Forked(k0, k1, p, c, kernelRoot)
    requires OthersSame(k1, k2, c) && |k0.mem| == |k1.mem|
    requires k2.allocs == k1.allocs - {c} && k2.spaces == k1.spaces - {c}
    ensures k2.allocs == k0.allocs && k2.spaces == k0.spaces
    ensures forall q :: SameBlock(k0, k2, q) && SameSpace(k0, k2, q)
  {
    hide ForkedFrom, Owned, SpacesFine, HeldIs, Balanced, BlocksFine;
    assert c !in k0.spaces;
    OthersTwice(k0, k1, k2, c);
  }

  // ---------- runs ----------

  // A resize that needs pages.
  ghost predicate Moves(allocs: map<nat, Alloc>, p: nat, size: nat)
    requires p != 0 ==> p in allocs
  {
    p == 0 || (size != 0 && PagesFor(allocs[p].size) != PagesFor(size))
  }

  // The pool is found, and enough frames lie behind it for the tables of the parent's pages.
  ghost predicate TablesSuffice(b: Bitmap, pages: set<Path>)
    requires BitmapOk(b)
  {
    Servable(b, POOL) && |Needed(pages)| <= |Ahead(Taken(b, POOL).bits, Taken(b, POOL).cur)| + 1
  }

  // The bitmap has room for a fork: record, root, pool and tables.
  ghost predicate ForkFits(b: Bitmap, pages: set<Path>)
    requires BitmapOk(b)
  {
    Serves(b, [2, 1]) && TablesSuffice(After(b, [2, 1]), pages)
  }

  // What a caller may ask of the allocator and of the address spaces.
  datatype Op = AllocOp(size: nat) | FreeOp(p: nat) | ReallocOp(p: nat, size: nat)
              | NewOp | MapOp(p: nat, virt: bv64, n: nat) | RemapOp(p: nat, virt: bv64, flags: nat)
              | ForkOp(p: nat) | DropOp(p: nat)

  // The block or address space that an operation is about; none, for one that makes its own.
  function Subject(op: Op): nat {
    if op.FreeOp? || op.ReallocOp? || op.MapOp? || op.RemapOp? || op.DropOp? then op.p else 0
  }

  // Blocks in the hands of the caller are freed and resized, address spaces mapped, forked and dropped;
  // only pages of the user's half that are not mapped yet are mapped, and mapped ones stay present.
  ghost predicate Applicable(k: Kernel, op: Op) {
    && (op.FreeOp? ==> op.p in k.allocs && op.p !in k.spaces)
    && (op.ReallocOp? && op.p != 0 ==> op.p in k.allocs && op.p !in k.spaces)
    && (op.MapOp? || op.RemapOp? || op.ForkOp? || op.DropOp? ==> op.p in k.spaces)
    && (op.MapOp? ==> op.n > 0 && Unmapped(k.spaces[op.p], op.virt, op.n))
    && (op.RemapOp? ==> PathOf(op.virt) in k.spaces[op.p].data && op.flags < PAGE && op.flags % 2 == 1)
  }

  // The operation ends, with success or a reported failure: no search goes astray at the end of the
  // bitmap, and a fork has its pool, its tables and not too many pages.
  ghost predicate Goes(k: Kernel, op: Op)
    requires BitmapOk(k.Map()) && Applicable(k, op)
  {
    && (op.AllocOp? ==> Servable(k.Map(), PagesFor(op.size) + 1) || CleanlyFails(k.Map(), PagesFor(op.size) + 1))
    && (op.ReallocOp? && Moves(k.allocs, op.p, op.size) ==>
          Servable(k.Map(), PagesFor(op.size) + 1) || CleanlyFails(k.Map(), PagesFor(op.size) + 1))
    && (op.NewOp? ==> Serves(k.Map(), [2, 1]) || CleanlyFails(k.Map(), 2))
    && (op.MapOp? ==> RangeFits(k.Map(), k.spaces[op.p].tabs, op.virt, op.n) || CleanlyFails(k.Map(), op.n))
    && (op.ForkOp? ==> ForkFits(k.Map(), k.spaces[op.p].data.Keys) && |k.spaces[op.p].data| <= POOL)
  }

  // Only where the next search starts has changed.
  ghost predicate Unchanged(k: Kernel, k': Kernel) {
    k' == k.(cur := k'.cur)
  }

  ghost predicate BlockMade(k: Kernel, k': Kernel, size: nat) {
    exists p :: p in k'.allocs && p !in k.allocs && k'.allocs == k.allocs[p := Zeroed(size)] && k'.spaces == k.spaces
  }

  // The block that was at `p` is now at `q`, with the bytes that the two sizes have in common.
  ghost predicate BlockResized(k: Kernel, k': Kernel, p: nat, size: nat, q: nat) {
    && q in k'.allocs && (q == p || q !in k.allocs) && k'.allocs[q].size == size
    && k'.allocs == (k.allocs - {p})[q := k'.allocs[q]] && k'.spaces == k.spaces
    && (p in k.allocs ==>
          forall i :: 0 <= i < size && i < k.allocs[p].size ==>
            i < |k'.allocs[q].data| && i < |k.allocs[p].data| && k'.allocs[q].data[i] == k.allocs[p].data[i])
  }

  ghost predicate SpaceMade(k: Kernel, k': Kernel) {
    exists p :: && p in k'.spaces && p !in k.allocs && p in k'.allocs && k'.spaces == k.spaces[p := k'.spaces[p]]
                && k'.allocs == k.allocs[p := k'.allocs[p]] && k'.spaces[p].data == map[]
  }

  ghost predicate ForkMadeFrom(k: Kernel, k': Kernel, p: nat, kernelRoot: nat) {
    exists c :: c in k'.spaces && Forked(k, k', p, c, kernelRoot) && Charged(k, k', c)
  }

  // One operation: what it does, and that everything it is not about stays as it was.
  ghost predicate Stepped(k: Kernel, op: Op, k': Kernel, kernelRoot: nat) {
    && OthersSame(k, k', Subject(op)) && |k'.bits| == |k.bits| && |k'.mem| == |k.mem|
    && (op.AllocOp? ==> Unchanged(k, k') || BlockMade(k, k', op.size))
    && (op.FreeOp? ==> k'.allocs == k.allocs - {op.p} && k'.spaces == k.spaces)
    && (op.ReallocOp? ==>
          || Unchanged(k, k')
          || (op.size == 0 && op.p != 0 && k'.allocs == k.allocs - {op.p} && k'.spaces == k.spaces)
          || (exists q :: q in k'.allocs && BlockResized(k, k', op.p, op.size, q)))
    && (op.NewOp? ==> Unchanged(k, k') || SpaceMade(k, k'))
    && (op.MapOp? ==>
          Unchanged(k, k') || exists base: nat :: RangeGiven(k, k', op.p, NumberOf(PathOf(op.virt)), base, op.n))
    && (op.RemapOp? ==> FlagsChanged(k, k', op.p, PathOf(op.virt), op.flags))
    && (op.ForkOp? ==> ForkMadeFrom(k, k', op.p, kernelRoot))
    && (op.DropOp? ==> k'.allocs == k.allocs - {op.p} && k'.spaces == k.spaces - {op.p})
  }

  // Some owners account for every page of the kernel.
  ghost predicate Sound(k: Kernel, reserved: set<nat>) {
    exists held :: KernelOk(k, held, reserved)
  }

  ghost predicate IsRun(states: seq<Kernel>, ops: seq<Op>, reserved: set<nat>, kernelRoot: nat) {
    && |states| == |ops| + 1
    && (forall i :: 0 <= i < |states| ==> Sound(states[i], reserved))
    && (forall i :: 0 <= i < |ops| ==> Stepped(states[i], ops[i], states[i + 1], kernelRoot))
  }

  // A mapped page is in the user's half and has a page table.
  lemma DataWithin(k: Kernel, held: Held, reserved: set<nat>, p: nat, virt: bv64)
    requires KernelOk(k, held, reserved) && p in k.spaces
    ensures PathOf(virt) in k.spaces[p].data ==>
              Within(PathOf(virt), 256) && PathOf(virt)[0] < 256 && PathOf(virt)[..3] in k.spaces[p].tabs
  {
    hide SpaceFine, Owned, HeldIs, Balanced, BlocksFine, PathOf;
    SpaceReady(k, held, reserved, p, {});
    DataHasTable(k.mem, k.spaces[p]);
  }

  lemma DataHasTable(mem: seq<Page>, s: Space)
    requires SpaceFine(mem, s)
    ensures forall q :: q in s.data ==> IsPage(q, 256) && q[..3] in s.tabs
  {
    hide TreeOk, Injective;
  }

  // One page in an empty address space needs three tables and itself.
  lemma FreshRange(b: Bitmap, s: Space, virt: bv64)
    requires BitmapOk(b) && s.data == map[] && s.tabs.Keys == {[]} && Within(PathOf(virt), 256)
    ensures Unmapped(s, virt, 1) && NumberOf(PathOf(virt)) + 1 <= USER_PAGES
    ensures RangeFits(b, s.tabs, virt, 1) <==> |Ahead(b.bits, b.cur)| >= 4
  {
    hide PathOf, PathFrom, NumberOf, Above, Ahead, Behind, Taken, Servable, Start, FreePages;
    PathBack(PathOf(virt));
    AboveRangeNext(NumberOf(PathOf(virt)), 0);
    AboveThree(PathOf(virt), s.tabs);
    assert AboveRange(NumberOf(PathOf(virt)), 0) == {};
    TakeOne(b);
    if Servable(b, 1) {
      var free, f := Ahead(b.bits, b.cur), Start(b, 1);
      assert free == (free - {f}) + {f};
    }
  }

  // Then it has that page and no other.
  lemma OneMapped(k: Kernel, k': Kernel, p: nat, virt: bv64, base: nat)
    requires RangeGiven(k, k', p, NumberOf(PathOf(virt)), base, 1) && k.spaces[p].data == map[]
    requires SpaceFine(k'.mem, k'.spaces[p]) && Within(PathOf(virt), 256)
    ensures k'.spaces[p].data.Keys == {PathOf(virt)}
  {
    hide SpaceFine, PathOf, PathFrom, Leaf, OthersSame;
    var s, q := k'.spaces[p], PathOf(virt);
    PathBack(q);
    DataHasTable(k'.mem, s);
    assert ZeroAt(k'.mem, s, NumberOf(q), NumberOf(q), base);
    forall x | x in s.data
      ensures x == q
    {
      PathBack(x);
    }
  }

  lemma PathWithin(virt: bv64)
    ensures Within(PathOf(virt), 256) <==> PathOf(virt)[0] < 256
  {
    hide PathOf;
  }

  // Where there was nothing, nothing has changed.
  lemma NobodyThere(k: Kernel, held: Held, reserved: set<nat>, k': Kernel, p: nat, r: nat)
    requires KernelOk(k, held, reserved) && p !in k.allocs && OthersSame(k, k', p)
    ensures OthersSame(k, k', r)
  {
    hide Owned, HeldIs, Balanced, BlocksFine, SpacesFine;
    assert p !in k.spaces;
  }

  // A new block, its bytes, and the old block gone.
  lemma BlockMoved(k: Kernel, held: Held, reserved: set<nat>, k1: Kernel, k2: Kernel, k3: Kernel, p: nat, q: nat)
    requires KernelOk(k, held, reserved) && q !in k.allocs && OthersSame(k, k1, q) && OthersSame(k1, k2, q)
    requires OthersSame(k2, k3, p) && |k.mem| == |k1.mem| == |k2.mem|
    ensures OthersSame(k, k3, p)
  {
    hide KernelOk, OthersSame;
    OthersTwice(k, k1, k2, q);
    NobodyThere(k, held, reserved, k2, q, p);
    OthersTwice(k, k2, k3, p);
  }

  lemma NothingMoved(k: Kernel, k': Kernel, op: Op, kernelRoot: nat)
    requires Unchanged(k, k') && (op.AllocOp? || op.ReallocOp? || op.NewOp? || op.MapOp?)
    ensures Stepped(k, op, k', kernelRoot)
  {
    hide Owned;
  }

  lemma BlockSteps(k: Kernel, held: Held, reserved: set<nat>, k': Kernel, op: Op, p: nat, kernelRoot: nat)
    requires KernelOk(k, held, reserved) && op.AllocOp? && p !in k.allocs && OthersSame(k, k', p)
    requires k'.allocs == k.allocs[p := Zeroed(op.size)] && k'.spaces == k.spaces && k'.mem == k.mem
    requires |k'.bits| == |k.bits|
    ensures Stepped(k, op, k', kernelRoot)
  {
    hide KernelOk, OthersSame;
    NobodyThere(k, held, reserved, k', p, 0);
    assert p in k'.allocs;
  }

  lemma ResizeSteps(k: Kernel, k': Kernel, op: Op, q: nat, kernelRoot: nat)
    requires op.ReallocOp? && OthersSame(k, k', op.p) && k'.mem == k.mem && |k'.bits| == |k.bits|
    requires k'.spaces == k.spaces
    requires || (op.size == 0 && op.p != 0 && k'.allocs == k.allocs - {op.p})
             || BlockResized(k, k', op.p, op.size, q)
    ensures Stepped(k, op, k', kernelRoot)
  {
    hide OthersSame;
    assert BlockResized(k, k', op.p, op.size, q) ==> q in k'.allocs;
  }

  lemma SpaceSteps(k: Kernel, held: Held, reserved: set<nat>, k': Kernel, op: Op, p: nat, kernelRoot: nat)
    requires KernelOk(k, held, reserved) && op.NewOp? && OthersSame(k, k', p) && |k'.mem| == |k.mem| && |k'.bits| == |k.bits|
    requires p in k'.spaces && p !in k.allocs && p in k'.allocs && k'.spaces == k.spaces[p := k'.spaces[p]]
    requires k'.allocs == k.allocs[p := k'.allocs[p]] && k'.spaces[p].data == map[]
    ensures Stepped(k, op, k', kernelRoot)
  {
    hide KernelOk, OthersSame;
    NobodyThere(k, held, reserved, k', p, 0);
  }

  lemma MapSteps(k: Kernel, k': Kernel, op: Op, base: nat, kernelRoot: nat)
    requires op.MapOp? && |k'.bits| == |k.bits| && RangeGiven(k, k', op.p, NumberOf(PathOf(op.virt)), base, op.n)
    ensures Stepped(k, op, k', kernelRoot)
  {
    hide OthersSame, PathOf, Leaf, PathFrom;
  }

  lemma RemapSteps(k: Kernel, k': Kernel, op: Op, kernelRoot: nat)
    requires op.RemapOp? && FlagsChanged(k, k', op.p, PathOf(op.virt), op.flags)
    ensures Stepped(k, op, k', kernelRoot)
  {
    hide OthersSame, PathOf, Leaf;
  }

  lemma ForkSteps(k: Kernel, held: Held, reserved: set<nat>, k': Kernel, op: Op, c: nat, kernelRoot: nat)
    requires KernelOk(k, held, reserved) && op.ForkOp? && |k'.mem| == |k.mem| && |k'.bits| == |k.bits|
    requires Forked(k, k', op.p, c, kernelRoot) && Charged(k, k', c)
    ensures Stepped(k, op, k', kernelRoot)
  {
    hide KernelOk, OthersSame, ForkedFrom, Charged;
    NobodyThere(k, held, reserved, k', c, 0);
  }

  lemma DropSteps(k: Kernel, k': Kernel, op: Op, kernelRoot: nat)
    requires (op.FreeOp? || op.DropOp?) && OthersSame(k, k', op.p) && k'.mem == k.mem && |k'.bits| == |k.bits|
    requires k'.allocs == k.allocs - {op.p} && k'.spaces == if op.FreeOp? then k.spaces else k.spaces - {op.p}
    ensures Stepped(k, op, k', kernelRoot)
  {
    hide OthersSame;
  }

  lemma SoundIs(k: Kernel, held: Held, reserved: set<nat>)
    requires KernelOk(k, held, reserved)
    ensures Sound(k, reserved)
  {
    hide KernelOk;
  }

  lemma RunMore(states: seq<Kernel>, ops: seq<Op>, reserved: set<nat>, kernelRoot: nat, op: Op, k: Kernel)
    requires IsRun(states, ops, reserved, kernelRoot) && Sound(k, reserved) && Stepped(states[|ops|], op, k, kernelRoot)
    ensures IsRun(states + [k], ops + [op], reserved, kernelRoot)
  {
    hide Sound, Stepped;
  }

  // Over a whole run, an address space that no operation is about keeps its tables, its pages and what
  // is in them, and so does a block.
  lemma {:induction false} Undisturbed(states: seq<Kernel>, ops: seq<Op>, reserved: set<nat>, kernelRoot: nat, r: nat)
    requires IsRun(states, ops, reserved, kernelRoot)
    requires forall i :: 0 <= i < |ops| ==> Subject(ops[i]) != r
    ensures SameBlock(states[0], states[|ops|], r) && SameSpace(states[0], states[|ops|], r)
    ensures |states[|ops|].mem| == |states[0].mem|
    decreases |ops|
  {
    hide Sound, Owned;
    if ops != [] {
      var n := |ops| - 1;
      Undisturbed(states[..n + 1], ops[..n], reserved, kernelRoot, r);
      assert Stepped(states[n], ops[n], states[n + 1], kernelRoot);
      StepKeeps(states[n], ops[n], states[n + 1], kernelRoot, r);
      SameTwice(states[0], states[n], states[n + 1], r);
    }
  }

  lemma StepKeeps(k: Kernel, op: Op, k': Kernel, kernelRoot: nat, r: nat)
    requires Stepped(k, op, k', kernelRoot) && Subject(op) != r
    ensures SameBlock(k, k', r) && SameSpace(k, k', r) && |k'.mem| == |k.mem|
  {
    hide SameBlock, SameSpace;
  }

  lemma SameTwice(a: Kernel, b: Kernel, c: Kernel, r: nat)
    requires SameBlock(a, b, r) && SameSpace(a, b, r) && SameBlock(b, c, r) && SameSpace(b, c, r) && |a.mem| == |b.mem|
    ensures SameBlock(a, c, r) && SameSpace(a, c, r)
  {
    hide Owned;
  }

  // In every state of a run the bit of a page is set exactly if it is reserved or held, and no page is
  // held twice.
  lemma SetBitsAreHeld(k: Kernel, held: Held, reserved: set<nat>, x: nat)
    requires KernelOk(k, held, reserved) && x < |k.bits|
    ensures k.bits[x] <==> x in reserved || HeldBy(held, x)
    ensures HeldBy(held, x) ==> x !in reserved
    ensures forall a, b :: a in held && b in held && x in held[a] && x in held[b] ==> a == b
  {
    hide HeldIs, BlocksFine, SpacesFine;
    assert k.bits[x] <==> x !in FreePages(k.bits);
  }

  // The page table of the only page has no other entry.
  lemma OnlyPage(mem: seq<Page>, s: Space, q: Path)
    requires SpaceFine(mem, s) && s.data.Keys == {q}
    ensures |q| == LEVELS && q[..3] in s.tabs && s.tabs[q[..3]] < |mem| && |mem[s.tabs[q[..3]]]| == ENTRIES
    ensures !MapsAnother(mem[s.tabs[q[..3]]], q[3])
  {
    hide Injective;
    assert q in s.data;
    var pt := s.tabs[q[..3]];
    forall i | 0 <= i < ENTRIES && i != q[3]
      ensures !Present(mem[pt][i])
    {
      var r := q[..3] + [i];
      assert r[..3] == q[..3] && r[3] == i && r != q && Within(r, 256);
      assert r !in s.data;
    }
  }

  lemma AboveThree(q: Path, tabs: map<Path, nat>)
    requires |q| == LEVELS && tabs.Keys == {[]}
    ensures |Above(q) - tabs.Keys| == 3
  {
    var a, b, c := q[..1], q[..2], q[..3];
    assert |a| == 1 && |b| == 2 && |c| == 3;
    assert Above(q) - {[]} == {a, b, c};
  }
}

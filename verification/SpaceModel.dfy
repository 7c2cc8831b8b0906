// Address spaces and the free frames: what allocating, forking and freeing do to both, as values.

module SpaceModel {
  import opened PageTables
  import opened Runs

  // The frames of an address space's tables.
  ghost function Frames(tabs: map<Path, nat>): set<nat> {
    tabs.Values
  }

  // A good address space, none of whose tables is free.
  ghost predicate SpaceOk(mem: seq<Page>, free: set<nat>, root: nat, tabs: map<Path, nat>, top: nat) {
    TreeOk(mem, root, tabs, top) && Frames(tabs) !! free && forall f :: f in free ==> f < |mem|
  }

  // The page table has a present entry other than `e`.
  ghost predicate MapsAnother(table: Page, e: nat) {
    exists i :: 0 <= i < |table| && i != e && Present(table[i])
  }

  // No page outside `changed` differs.
  ghost predicate Kept(mem: seq<Page>, mem': seq<Page>, changed: set<nat>) {
    |mem'| == |mem| && forall g :: 0 <= g < |mem| && g !in changed ==> mem'[g] == mem[g]
  }

  // The translation of every page but `q` is the same.
  ghost predicate SameLeaves(mem: seq<Page>, tabs: map<Path, nat>, mem': seq<Page>, tabs': map<Path, nat>, q: Path) {
    forall r :: r != q ==> Leaf(mem', tabs', r) == Leaf(mem, tabs, r)
  }

  // An address space gained tables from the free frames: the two together are the same frames.
  ghost predicate Grew(free: set<nat>, tabs: map<Path, nat>, free': set<nat>, tabs': map<Path, nat>) {
    && (forall p :: p in tabs ==> p in tabs' && tabs'[p] == tabs[p])
    && free' + Frames(tabs') == free + Frames(tabs)
    && |free'| + |tabs'| == |free| + |tabs|
  }

  lemma GrewTwice(mem: seq<Page>, free: set<nat>, tabs: map<Path, nat>, mem1: seq<Page>, free1: set<nat>,
                  tabs1: map<Path, nat>, mem2: seq<Page>, free2: set<nat>, tabs2: map<Path, nat>)
    requires Grew(free, tabs, free1, tabs1) && Grew(free1, tabs1, free2, tabs2)
    requires Kept(mem, mem1, free + Frames(tabs)) && Kept(mem1, mem2, free1 + Frames(tabs1))
    ensures Grew(free, tabs, free2, tabs2) && Kept(mem, mem2, free + Frames(tabs))
  {
    hide Frames;
  }

  lemma FramesAdd(tabs: map<Path, nat>, c: Path, f: nat)
    requires c !in tabs
    ensures Frames(tabs[c := f]) == Frames(tabs) + {f}
  {
    var tabs' := tabs[c := f];
    forall v | v in Frames(tabs) + {f}
      ensures v in Frames(tabs')
    {
      if v == f {
        assert tabs'[c] == f;
      } else {
        var p :| p in tabs && tabs[p] == v;
        assert tabs'[p] == v;
      }
    }
  }

  lemma FrameIn(tabs: map<Path, nat>, p: Path)
    requires p in tabs
    ensures tabs[p] in Frames(tabs)
  {
  }

  lemma LinkGrew(free: set<nat>, tabs: map<Path, nat>, c: Path, f: nat)
    requires c !in tabs && f in free && Frames(tabs) !! free
    ensures Grew(free, tabs, free - {f}, tabs[c := f]) && Frames(tabs[c := f]) !! free - {f}
  {
    hide Frames;
    FramesAdd(tabs, c, f);
    MoveOne(free, Frames(tabs), f);
    assert tabs[c := f].Keys == tabs.Keys + {c};
    assert |tabs[c := f]| == |tabs[c := f].Keys|;
  }

  lemma MoveOne(free: set<nat>, used: set<nat>, f: nat)
    requires f in free && used !! free
    ensures (free - {f}) + (used + {f}) == free + used && used + {f} !! free - {f}
    ensures |free - {f}| == |free| - 1
  {
  }

  // A free frame, zeroed and linked, is a new table.
  lemma LinkNew(mem: seq<Page>, free: set<nat>, root: nat, tabs: map<Path, nat>, top: nat, c: Path, f: nat)
    requires SpaceOk(mem, free, root, tabs, top) && 0 < |c| < LEVELS && Within(c, top)
    requires Up(c) in tabs && c !in tabs && f in free
    ensures tabs[Up(c)] < |mem| && f < |mem| && Last(c) < |mem[tabs[Up(c)]]| && Last(c) < ENTRIES && tabs[Up(c)] != f
    ensures Last(c) < |mem[f := ZeroPage()][tabs[Up(c)]]|
    ensures var mem' := Stored(mem[f := ZeroPage()], tabs[Up(c)], Last(c), Word(f, 7));
            && SpaceOk(mem', free - {f}, root, tabs[c := f], top) && Grew(free, tabs, free - {f}, tabs[c := f])
            && Kept(mem, mem', free + Frames(tabs))
            && forall q :: Leaf(mem', tabs[c := f], q) == Leaf(mem, tabs, q)
    ensures tabs[c := f].Keys == tabs.Keys + {c}
  {
    hide TreeOk, Leaf, Frames;
    forall p | p in tabs
      ensures tabs[p] != f
    {
      FrameIn(tabs, p);
    }
    LinkTable(mem, root, tabs, top, c, f);
    LinkGrew(free, tabs, c, f);
    FrameIn(tabs, Up(c));
  }

  lemma {:induction false} SubsetSize<T>(a: set<T>, b: set<T>)
    requires a <= b
    ensures |a| <= |b|
  {
    if a != {} {
      var x :| x in a;
      SubsetSize(a - {x}, b - {x});
    }
  }

  lemma ThreeKeys(k: set<Path>, k1: set<Path>, k2: set<Path>, k3: set<Path>, q: Path)
    requires |q| == LEVELS && k1 == k + {q[..1]} && k2 == k1 + {q[..2]} && k3 == k2 + {q[..3]}
    ensures k3 == k + Above(q)
  {
  }

  // The free frames suffice for the tables that `room` has and the address space has not.
  ghost predicate RoomFor(room: set<Path>, tabs: map<Path, nat>, free: set<nat>) {
    tabs.Keys <= room && |room| <= |tabs| + |free|
  }

  lemma RoomExactly(tabs: map<Path, nat>, free: set<nat>, q: Path)
    requires |q| == LEVELS
    ensures RoomFor(tabs.Keys + Above(q), tabs, free) <==> |Above(q) - tabs.Keys| <= |free|
  {
    var k, more := tabs.Keys, Above(q) - tabs.Keys;
    assert k + Above(q) == k + more && k !! more;
    assert |k + more| == |k| + |more|;
  }

  // Adding one table of `room` keeps the balance of room and free frames.
  lemma RoomAfter(tabs: map<Path, nat>, free: set<nat>, tabs1: map<Path, nat>, free1: set<nat>, room: set<Path>, c: Path)
    requires tabs.Keys <= room && Grew(free, tabs, free1, tabs1) && c in room && tabs1.Keys == tabs.Keys + {c}
    ensures RoomFor(room, tabs1, free1) <==> RoomFor(room, tabs, free)
    ensures tabs1.Keys <= room
    ensures forall p :: p in tabs ==> p in tabs1 && tabs1[p] == tabs[p]
  {
    hide Frames;
  }

  // With all tables of `room` in place there was room.
  lemma RoomFilled(room: set<Path>, tabs: map<Path, nat>, free: set<nat>)
    requires tabs.Keys == room
    ensures RoomFor(room, tabs, free)
  {
  }

  lemma InAbove(q: Path)
    requires |q| == LEVELS
    ensures q[..1] in Above(q) && q[..2] in Above(q) && q[..3] in Above(q)
  {
  }

  // A table of `room` that is missing when no frame is free shows that there is not room.
  lemma NoRoom(tabs: map<Path, nat>, free: set<nat>, room: set<Path>, c: Path)
    requires tabs.Keys <= room && c in room && c !in tabs && free == {}
    ensures !RoomFor(room, tabs, free)
  {
    SubsetSize(tabs.Keys, room - {c});
  }

  lemma SpaceFacts(mem: seq<Page>, free: set<nat>, root: nat, tabs: map<Path, nat>, top: nat)
    requires SpaceOk(mem, free, root, tabs, top)
    ensures [] in tabs && tabs[[]] == root && MemOk(mem)
    ensures forall p :: p in tabs ==> tabs[p] < |mem|
  {
  }

  lemma PrefixFacts(q: Path, top: nat)
    requires |q| == LEVELS && Within(q, top)
    ensures Up(q[..1]) == [] && Up(q[..2]) == q[..1] && Up(q[..3]) == q[..2]
    ensures Last(q[..1]) == q[0] && Last(q[..2]) == q[1] && Last(q[..3]) == q[2]
    ensures Within(q[..1], top) && Within(q[..2], top) && Within(q[..3], top) && q[3] < ENTRIES
  {
  }

  lemma PresentIsLinked(mem: seq<Page>, root: nat, tabs: map<Path, nat>, top: nat, c: Path)
    requires TreeOk(mem, root, tabs, top) && 0 < |c| < LEVELS && Within(c, top) && Up(c) in tabs
    ensures tabs[Up(c)] < |mem| && Last(c) < |mem[tabs[Up(c)]]|
    ensures Present(mem[tabs[Up(c)]][Last(c)]) <==> c in tabs
    ensures c in tabs ==> FrameOf(mem[tabs[Up(c)]][Last(c)]) == tabs[c]
  {
    assert LinkOk(mem, tabs, c);
  }

  // ---------- forking ----------

  const POOL: nat := 4096

  // Path `q` lies below (or at) path `p`.
  ghost predicate Under(p: Path, q: Path) {
    |p| <= |q| && q[..|p|] == p
  }

  ghost predicate IsPage(q: Path, top: nat) {
    |q| == LEVELS && Within(q, top)
  }

  // The parent: its tables and the pages it maps are not free.
  ghost predicate ParentOk(mem: seq<Page>, free: set<nat>, root: nat, tabs: map<Path, nat>, top: nat) {
    && TreeOk(mem, root, tabs, top)
    && (forall p :: p in tabs ==> tabs[p] !in free)
    && (forall q :: IsPage(q, top) && Present(Leaf(mem, tabs, q)) ==>
          FrameOf(Leaf(mem, tabs, q)) < |mem| && FrameOf(Leaf(mem, tabs, q)) !in free)
  }

  // Page `q` of the parent has been copied to frame `f` of the child, with the same flags.
  ghost predicate CopyOk(mem0: seq<Page>, otabs: map<Path, nat>, mem: seq<Page>, ntabs: map<Path, nat>, q: Path, f: nat) {
    var w := Leaf(mem0, otabs, q);
    && Present(w) && FrameOf(w) < |mem0| && f < |mem|
    && Leaf(mem, ntabs, q) == Word(f, FlagsOf(w)) && mem[f] == mem0[FrameOf(w)]
  }

  // The child so far: `copied` says which pages have been copied and where; nothing else is mapped.
  ghost predicate CopiesOk(mem0: seq<Page>, otabs: map<Path, nat>, mem: seq<Page>, ntabs: map<Path, nat>, top: nat,
                           copied: map<Path, nat>, base: nat) {
    && |copied| <= POOL
    && (forall q :: q in copied ==>
          IsPage(q, top) && base <= copied[q] < base + |copied| && CopyOk(mem0, otabs, mem, ntabs, q, copied[q]))
    && (forall q, r :: q in copied && r in copied && copied[q] == copied[r] ==> q == r)
    && (forall q :: q !in copied ==> Leaf(mem, ntabs, q) == 0)
  }

  // The pool of `POOL` frames from `base` on belongs to the fork; the other frames that were free
  // are still free or tables of the child.
  ghost predicate PoolOk(frames: nat, free0: set<nat>, free: set<nat>, ntabs: map<Path, nat>, base: nat) {
    base + POOL <= frames && Run(base, base + POOL) <= free0 && free + Frames(ntabs) == free0 - Run(base, base + POOL)
  }

  function Cut(q: Path, n: nat): Path {
    if n <= |q| then q[..n] else q
  }

  // The tables above a page, not counting the root.
  ghost function Above(q: Path): set<Path>
    requires |q| == LEVELS
  {
    {q[..1], q[..2], q[..3]}
  }

  // How many of them an address space has not.
  ghost function Missing(q: Path, tabs: map<Path, nat>): nat
    requires |q| == LEVELS
  {
    |Above(q) - tabs.Keys|
  }

  ghost function Cuts(pages: set<Path>, n: nat): set<Path> {
    set q | q in pages :: Cut(q, n)
  }

  // The tables that an address space with these pages and no other needs.
  ghost function Needed(pages: set<Path>): set<Path> {
    {[]} + Cuts(pages, 1) + Cuts(pages, 2) + Cuts(pages, 3)
  }

  lemma NeededAdd(pages: set<Path>, q: Path)
    requires |q| == LEVELS
    ensures Needed(pages + {q}) == Needed(pages) + Above(q)
  {
    CutsAdd(pages, q, 1);
    CutsAdd(pages, q, 2);
    CutsAdd(pages, q, 3);
  }

  lemma CutsAdd(pages: set<Path>, q: Path, n: nat)
    ensures Cuts(pages + {q}, n) == Cuts(pages, n) + {Cut(q, n)}
  {
    var less, more := Cuts(pages, n), Cuts(pages + {q}, n);
    forall c | c in less
      ensures c in more
    {
      var r :| r in pages && Cut(r, n) == c;
      assert r in pages + {q};
    }
    assert q in pages + {q};
  }

  lemma CutsMore(a: set<Path>, b: set<Path>, n: nat)
    requires a <= b
    ensures Cuts(a, n) <= Cuts(b, n)
  {
  }

  lemma NeededNone()
    ensures Needed({}) == {[]}
  {
  }

  // More pages need no fewer tables.
  lemma NeededMore(a: set<Path>, b: set<Path>)
    requires a <= b
    ensures |Needed(a)| <= |Needed(b)|
  {
    hide Cuts;
    CutsMore(a, b, 1);
    CutsMore(a, b, 2);
    CutsMore(a, b, 3);
    SubsetSize(Needed(a), Needed(b));
  }

  ghost predicate ForkOk(mem0: seq<Page>, free0: set<nat>, otabs: map<Path, nat>, top: nat,
                         mem: seq<Page>, free: set<nat>, root: nat, ntabs: map<Path, nat>,
                         copied: map<Path, nat>, base: nat) {
    && SpaceOk(mem, free, root, ntabs, top) && Kept(mem0, mem, free0)
    && ntabs.Keys == Needed(copied.Keys) && |free| + |ntabs| + POOL == |free0|
    && PoolOk(|mem|, free0, free, ntabs, base)
    && CopiesOk(mem0, otabs, mem, ntabs, top, copied, base)
  }

  // A word of a table of the parent is what it was when the fork began.
  lemma ParentWord(mem0: seq<Page>, free0: set<nat>, oroot: nat, otabs: map<Path, nat>, top: nat, mem: seq<Page>, p: Path)
    requires ParentOk(mem0, free0, oroot, otabs, top) && Kept(mem0, mem, free0) && p in otabs
    ensures otabs[p] < |mem| && mem[otabs[p]] == mem0[otabs[p]] && |mem[otabs[p]]| == ENTRIES
  {
  }

  // Copying one more page: fill the next frame of the pool, then map it.
  lemma CopyStep(mem0: seq<Page>, free0: set<nat>, oroot: nat, otabs: map<Path, nat>, top: nat,
                 mem: seq<Page>, free: set<nat>, root: nat, ntabs: map<Path, nat>, copied: map<Path, nat>, base: nat,
                 q: Path, mem1: seq<Page>, mem2: seq<Page>, free2: set<nat>, ntabs2: map<Path, nat>)
    requires ParentOk(mem0, free0, oroot, otabs, top)
    requires ForkOk(mem0, free0, otabs, top, mem, free, root, ntabs, copied, base)
    requires IsPage(q, top) && q !in copied && |copied| < POOL && Present(Leaf(mem0, otabs, q)) && q[..3] in otabs
    requires FrameOf(Leaf(mem0, otabs, q)) < |mem| && base + |copied| < |mem|
    requires mem1 == mem[base + |copied| := mem[FrameOf(Leaf(mem0, otabs, q))]]
    requires SpaceOk(mem2, free2, root, ntabs2, top) && Grew(free, ntabs, free2, ntabs2)
    requires Leaf(mem2, ntabs2, q) == Word(base + |copied|, FlagsOf(Leaf(mem0, otabs, q)))
    requires SameLeaves(mem1, ntabs, mem2, ntabs2, q) && Kept(mem1, mem2, free + Frames(ntabs))
    requires ntabs2.Keys == ntabs.Keys + Above(q)
    requires forall r :: Leaf(mem1, ntabs, r) == Leaf(mem, ntabs, r)
    ensures ForkOk(mem0, free0, otabs, top, mem2, free2, root, ntabs2, copied[q := base + |copied|], base)
  {
    hide TreeOk, Leaf, Frames, Word, Within, CopiesOk, Kept, PoolOk, Needed, Above;
    PageLength(q, top);
    NeededAdd(copied.Keys, q);
    assert copied[q := base + |copied|].Keys == copied.Keys + {q};
    PoolStep(|mem|, free0, free, ntabs, base, free2, ntabs2);
    PoolFacts(|mem|, free0, free, ntabs, base);
    KeptLength(mem0, mem, free0);
    KeptLength(mem1, mem2, free + Frames(ntabs));
    KeptStep(mem0, free0, mem, free + Frames(ntabs), base + |copied|, mem1, mem2);
    ParentPage(mem0, free0, oroot, otabs, top, mem, q);
    CopiesStep(mem0, otabs, mem, ntabs, top, copied, base, q, mem1, mem2, free + Frames(ntabs), ntabs2);
  }

  lemma KeptLength(mem: seq<Page>, mem': seq<Page>, changed: set<nat>)
    requires Kept(mem, mem', changed)
    ensures |mem'| == |mem|
  {
  }

  lemma ParentPage(mem0: seq<Page>, free0: set<nat>, oroot: nat, otabs: map<Path, nat>, top: nat, mem: seq<Page>, q: Path)
    requires ParentOk(mem0, free0, oroot, otabs, top) && Kept(mem0, mem, free0)
    requires IsPage(q, top) && Present(Leaf(mem0, otabs, q))
    ensures FrameOf(Leaf(mem0, otabs, q)) < |mem| && FrameOf(Leaf(mem0, otabs, q)) < |mem0|
    ensures mem[FrameOf(Leaf(mem0, otabs, q))] == mem0[FrameOf(Leaf(mem0, otabs, q))]
  {
  }

  lemma PoolFacts(frames: nat, free0: set<nat>, free: set<nat>, ntabs: map<Path, nat>, base: nat)
    requires PoolOk(frames, free0, free, ntabs, base)
    ensures forall x :: base <= x < base + POOL ==> x < frames && x in free0 && x !in free + Frames(ntabs)
    ensures free + Frames(ntabs) <= free0
  {
    hide Frames, Run;
    forall x | base <= x < base + POOL
      ensures x < frames && x in free0 && x !in free + Frames(ntabs)
    {
      assert x in Run(base, base + POOL);
    }
  }

  lemma PoolFrame(frames: nat, free0: set<nat>, free: set<nat>, ntabs: map<Path, nat>, base: nat, x: nat)
    requires PoolOk(frames, free0, free, ntabs, base) && base <= x < base + POOL
    ensures x < frames && x in free0 && x !in free && x !in Frames(ntabs)
  {
    hide Frames, Run;
    assert x in Run(base, base + POOL) && x !in free + Frames(ntabs);
  }

  lemma PoolStep(frames: nat, free0: set<nat>, free: set<nat>, ntabs: map<Path, nat>, base: nat,
                 free2: set<nat>, ntabs2: map<Path, nat>)
    requires PoolOk(frames, free0, free, ntabs, base) && Grew(free, ntabs, free2, ntabs2)
    ensures PoolOk(frames, free0, free2, ntabs2, base)
  {
    hide Frames, Run;
  }

  lemma KeptStep(mem0: seq<Page>, free0: set<nat>, mem: seq<Page>, region: set<nat>, f: nat, mem1: seq<Page>, mem2: seq<Page>)
    requires Kept(mem0, mem, free0) && f < |mem| && |mem1| == |mem| && region <= free0 && f in free0
    requires forall g :: 0 <= g < |mem| && g != f ==> mem1[g] == mem[g]
    requires Kept(mem1, mem2, region)
    ensures Kept(mem0, mem2, free0)
  {
  }

  lemma CopiesStep(mem0: seq<Page>, otabs: map<Path, nat>, mem: seq<Page>, ntabs: map<Path, nat>, top: nat,
                   copied: map<Path, nat>, base: nat, q: Path, mem1: seq<Page>, mem2: seq<Page>, region: set<nat>,
                   ntabs2: map<Path, nat>)
    requires CopiesOk(mem0, otabs, mem, ntabs, top, copied, base) && |mem0| == |mem|
    requires IsPage(q, top) && q !in copied && |copied| < POOL && Present(Leaf(mem0, otabs, q))
    requires FrameOf(Leaf(mem0, otabs, q)) < |mem| && base + |copied| < |mem|
    requires mem[FrameOf(Leaf(mem0, otabs, q))] == mem0[FrameOf(Leaf(mem0, otabs, q))]
    requires mem1 == mem[base + |copied| := mem[FrameOf(Leaf(mem0, otabs, q))]]
    requires forall x :: base <= x < base + POOL ==> x !in region
    requires Leaf(mem2, ntabs2, q) == Word(base + |copied|, FlagsOf(Leaf(mem0, otabs, q)))
    requires SameLeaves(mem1, ntabs, mem2, ntabs2, q) && Kept(mem1, mem2, region)
    requires forall r :: Leaf(mem1, ntabs, r) == Leaf(mem, ntabs, r)
    ensures CopiesOk(mem0, otabs, mem2, ntabs2, top, copied[q := base + |copied|], base)
  {
    hide Leaf, Word, IsPage, CopyOk;
    var f := base + |copied|;
    MapGrows(copied, q, f);
    CopiesApart(copied, q, f);
    CopyMade(mem0, otabs, mem2, ntabs2, q, f);
    forall r | r in copied && r != q
      ensures CopyOk(mem0, otabs, mem2, ntabs2, r, copied[r])
    {
      CopyKept(mem0, otabs, mem, ntabs, mem2, ntabs2, r, copied[r]);
    }
  }

  // The next frame is none of those used so far.
  lemma CopiesApart(copied: map<Path, nat>, q: Path, f: nat)
    requires forall r :: r in copied ==> copied[r] < f
    requires forall r, t :: r in copied && t in copied && copied[r] == copied[t] ==> r == t
    ensures Injective(copied[q := f])
  {
  }

  lemma CopyMade(mem0: seq<Page>, otabs: map<Path, nat>, mem: seq<Page>, ntabs: map<Path, nat>, q: Path, f: nat)
    requires Present(Leaf(mem0, otabs, q)) && FrameOf(Leaf(mem0, otabs, q)) < |mem0| && f < |mem|
    requires Leaf(mem, ntabs, q) == Word(f, FlagsOf(Leaf(mem0, otabs, q)))
    requires mem[f] == mem0[FrameOf(Leaf(mem0, otabs, q))]
    ensures CopyOk(mem0, otabs, mem, ntabs, q, f)
  {
  }

  lemma CopyKept(mem0: seq<Page>, otabs: map<Path, nat>, mem: seq<Page>, ntabs: map<Path, nat>, mem2: seq<Page>,
                 ntabs2: map<Path, nat>, q: Path, f: nat)
    requires CopyOk(mem0, otabs, mem, ntabs, q, f) && |mem2| == |mem|
    requires Leaf(mem2, ntabs2, q) == Leaf(mem, ntabs, q)
    requires f < |mem| ==> mem2[f] == mem[f]
    ensures CopyOk(mem0, otabs, mem2, ntabs2, q, f)
  {
  }

  // A page table entry below an absent table maps nothing.
  lemma AbsentBelow(mem: seq<Page>, root: nat, tabs: map<Path, nat>, top: nat, p: Path, q: Path)
    requires TreeOk(mem, root, tabs, top) && IsPage(q, top) && |p| <= 3 && Under(p, q) && p !in tabs
    ensures !Present(Leaf(mem, tabs, q))
  {
    NoTableBelow(mem, root, tabs, top, q, |p|);
  }

  // A fresh root maps nothing.
  lemma FreshRoot(mem: seq<Page>, free: set<nat>, root: nat, top: nat)
    requires MemOk(mem) && top <= ENTRIES && root < |mem| && mem[root] == ZeroPage() && root !in free
    requires forall f :: f in free ==> f < |mem|
    ensures SpaceOk(mem, free, root, map[[] := root], top)
    ensures forall q :: Leaf(mem, map[[] := root], q) == 0
  {
    var tabs: map<Path, nat> := map[[] := root];
    forall c | 0 < |c| < LEVELS && Within(c, top)
      ensures LinkOk(mem, tabs, c)
    {
    }
  }

  // Writing the kernel's half of the root touches no table and no page of the process.
  lemma StoreUpper(mem: seq<Page>, free: set<nat>, root: nat, tabs: map<Path, nat>, top: nat, i: nat, w: nat)
    requires SpaceOk(mem, free, root, tabs, top) && top <= i < ENTRIES
    ensures root < |mem| && |mem[root]| == ENTRIES
    ensures SpaceOk(Stored(mem, root, i, w), free, root, tabs, top)
    ensures forall q :: Leaf(Stored(mem, root, i, w), tabs, q) == Leaf(mem, tabs, q)
    ensures Kept(mem, Stored(mem, root, i, w), {root})
  {
    var mem' := Stored(mem, root, i, w);
    forall c | 0 < |c| < LEVELS && Within(c, top)
      ensures LinkOk(mem', tabs, c)
    {
      assert LinkOk(mem, tabs, c);
      if Up(c) == [] {
        assert Last(c) == c[0];
      } else if Up(c) in tabs {
        assert tabs[Up(c)] != root;
      }
    }
    forall q
      ensures Leaf(mem', tabs, q) == Leaf(mem, tabs, q)
    {
      if |q| == LEVELS && q[..3] in tabs {
        assert q[..3] != [];
      }
    }
  }

  // ---------- freeing ----------

  // The frames of the tables and pages strictly below path `p` whose next index is below `n`.
  ghost function Part(all: map<Path, nat>, p: Path, n: nat): set<nat> {
    set c | c in all && Under(p, c) && |p| < |c| && c[|p|] < n :: all[c]
  }

  ghost predicate Closed(all: map<Path, nat>) {
    forall c :: c in all && c != [] ==> Up(c) in all
  }

  ghost predicate Injective(all: map<Path, nat>) {
    forall c, d :: c in all && d in all && all[c] == all[d] ==> c == d
  }

  // A path below `p + [n]` has it as a prefix, and it is in the tree.
  lemma {:induction false} PrefixClosed(all: map<Path, nat>, p: Path, c: Path)
    requires Closed(all) && c in all && Under(p, c)
    ensures p in all
    decreases |c|
  {
    if |c| == |p| {
      assert c == p;
    } else {
      assert Under(p, Up(c)) by {
        assert c[..|c| - 1][..|p|] == c[..|p|];
      }
      PrefixClosed(all, p, Up(c));
    }
  }

  // One more entry of a table adds what hangs below it.
  lemma PartStep(all: map<Path, nat>, p: Path, n: nat)
    requires Closed(all) && forall c, i :: c in all && 0 <= i < |c| ==> c[i] < ENTRIES
    ensures Part(all, p, n + 1)
            == Part(all, p, n) + (if p + [n] in all then {all[p + [n]]} + Part(all, p + [n], ENTRIES) else {})
  {
    var child := p + [n];
    forall c | c in all && Under(p, c) && |p| < |c|
      ensures c[|p|] == n <==> Under(child, c)
      ensures Under(child, c) ==> child in all
    {
      if c[|p|] == n {
        assert c[..|p| + 1] == c[..|p|] + [c[|p|]];
      }
      if Under(child, c) {
        PrefixClosed(all, child, c);
      }
    }
    forall c | c in all && Under(child, c)
      ensures Under(p, c) && |p| < |c| && c[|p|] == n
    {
      assert c[..|p|] == c[..|p| + 1][..|p|] == p;
      assert c[|p|] == c[..|p| + 1][|p|];
    }
    assert child in all ==> Under(child, child);
    var more, rest := Part(all, p, n + 1), Part(all, p, n) + (if child in all then {all[child]} + Part(all, child, ENTRIES) else {});
    forall f | f in more
      ensures f in rest
    {
      var c :| c in all && Under(p, c) && |p| < |c| && c[|p|] < n + 1 && all[c] == f;
      if c[|p|] == n && c != child {
        assert |child| < |c| && c[|child|] < ENTRIES;
      }
    }
  }

  lemma RootIn(mem: seq<Page>, root: nat, tabs: map<Path, nat>, top: nat)
    requires TreeOk(mem, root, tabs, top)
    ensures [] in tabs && tabs[[]] == root
  {
  }

  lemma TableInMemory(mem: seq<Page>, root: nat, tabs: map<Path, nat>, top: nat, p: Path)
    requires TreeOk(mem, root, tabs, top) && p in tabs
    ensures tabs[p] < |mem| && |mem[tabs[p]]| == ENTRIES
  {
  }

  // Filling a frame of the pool is invisible to the child's tables.
  lemma FillPool(mem: seq<Page>, free: set<nat>, root: nat, tabs: map<Path, nat>, top: nat, f: nat, from: nat)
    requires SpaceOk(mem, free, root, tabs, top) && f < |mem| && from < |mem| && f !in Frames(tabs)
    ensures SpaceOk(mem[f := mem[from]], free, root, tabs, top)
    ensures forall q :: Leaf(mem[f := mem[from]], tabs, q) == Leaf(mem, tabs, q)
  {
    forall p | p in tabs
      ensures tabs[p] != f
    {
      FrameIn(tabs, p);
    }
    TreeFrame(mem, root, tabs, top, mem[f := mem[from]]);
  }

  lemma PageLength(q: Path, top: nat)
    requires IsPage(q, top)
    ensures |q| == LEVELS && Within(q, top)
  {
  }

  lemma PageIndices(q: Path, top: nat)
    requires IsPage(q, top)
    ensures forall i :: 0 <= i < |q| ==> q[i] < ENTRIES
  {
  }

  // ---------- the walk of a fork ----------

  // Every mapped page of the parent below `p` with next index below `n` has been copied.
  ghost predicate Covered(mem0: seq<Page>, otabs: map<Path, nat>, p: Path, n: nat, copied: map<Path, nat>, top: nat) {
    forall q :: IsPage(q, top) && Under(p, q) && |p| < |q| && q[|p|] < n && Present(Leaf(mem0, otabs, q)) ==> q in copied
  }

  // From `copied` to `copied'` only pages below `p` with next index below `n` were added.
  ghost predicate Extends(copied: map<Path, nat>, copied': map<Path, nat>, p: Path, n: nat) {
    && (forall q :: q in copied ==> q in copied' && copied'[q] == copied[q])
    && (forall q :: q in copied' && q !in copied ==> Under(p, q) && |p| < |q| && q[|p|] < n)
  }

  lemma UnderChild(p: Path, i: nat, q: Path)
    requires |p| < |q|
    ensures Under(p + [i], q) <==> Under(p, q) && q[|p|] == i
  {
    assert q[..|p| + 1] == q[..|p|] + [q[|p|]];
  }

  // Below a table, all indices are covered once the last one is.
  lemma CoveredAll(mem0: seq<Page>, otabs: map<Path, nat>, p: Path, n: nat, copied: map<Path, nat>, top: nat)
    requires Covered(mem0, otabs, p, n, copied, top) && |p| < LEVELS
    requires if p == [] then n == top else n == ENTRIES
    ensures Covered(mem0, otabs, p, ENTRIES, copied, top)
  {
    forall q | IsPage(q, top) && Under(p, q) && |p| < |q| && q[|p|] < ENTRIES && Present(Leaf(mem0, otabs, q))
      ensures q in copied
    {
      assert q[|p|] < n;
    }
  }

  // A child that is absent, or a table that has been walked, or a page that has been copied,
  // covers the next index.
  lemma CoverNext(mem0: seq<Page>, oroot: nat, otabs: map<Path, nat>, p: Path, i: nat, copied: map<Path, nat>, top: nat)
    requires TreeOk(mem0, oroot, otabs, top) && p in otabs && i < ENTRIES && Within(p + [i], top)
    requires Covered(mem0, otabs, p, i, copied, top)
    requires p + [i] in otabs ==> Covered(mem0, otabs, p + [i], ENTRIES, copied, top)
    requires |p| == 3 ==> p + [i] in copied || !Present(Leaf(mem0, otabs, p + [i]))
    ensures Covered(mem0, otabs, p, i + 1, copied, top)
  {
    forall q | IsPage(q, top) && Under(p, q) && |p| < |q| && q[|p|] < i + 1 && Present(Leaf(mem0, otabs, q))
      ensures q in copied
    {
      UnderChild(p, i, q);
      if q[|p|] == i {
        if |p| == 3 {
          assert q == p + [i];
        } else if p + [i] in otabs {
          assert q[|p + [i]|] < ENTRIES;
        } else {
          AbsentBelow(mem0, oroot, otabs, top, p + [i], q);
        }
      }
    }
  }

  lemma ExtendsNext(copied: map<Path, nat>, mid: map<Path, nat>, copied': map<Path, nat>, p: Path, i: nat)
    requires Extends(copied, mid, p, i) && Extends(mid, copied', p + [i], ENTRIES)
    ensures Extends(copied, copied', p, i + 1)
  {
    forall q | q in copied' && q !in copied
      ensures Under(p, q) && |p| < |q| && q[|p|] < i + 1
    {
      if q !in mid {
        UnderChild(p, i, q);
      }
    }
  }

  lemma ExtendsPage(copied: map<Path, nat>, mid: map<Path, nat>, p: Path, i: nat, f: nat)
    requires Extends(copied, mid, p, i) && p + [i] !in mid
    ensures Extends(copied, mid[p + [i] := f], p, i + 1)
  {
    UnderChild(p, i, p + [i]);
    assert Under(p + [i], p + [i]);
  }

  // Nothing below the next index has been copied yet.
  lemma NotYet(copied: map<Path, nat>, mid: map<Path, nat>, p: Path, i: nat, q: Path)
    requires Extends(copied, mid, p, i) && Under(p + [i], q)
    requires forall r :: r in copied ==> !Under(p, r)
    ensures q !in mid
  {
    UnderChild(p, i, q);
  }

  lemma NoneYet(copied: map<Path, nat>, mid: map<Path, nat>, p: Path, i: nat)
    requires Extends(copied, mid, p, i) && forall r :: r in copied ==> !Under(p, r)
    ensures forall q :: q in mid ==> !Under(p + [i], q)
  {
    hide Extends, Under;
    forall q | q in mid && Under(p + [i], q)
      ensures false
    {
      NotYet(copied, mid, p, i, q);
    }
  }

  // The pages that the parent maps.
  ghost predicate PagesOf(mem0: seq<Page>, otabs: map<Path, nat>, pages: set<Path>) {
    forall q :: q in pages <==> IsPage(q, 256) && Present(Leaf(mem0, otabs, q))
  }

  lemma CopiedPages(mem0: seq<Page>, free0: set<nat>, otabs: map<Path, nat>, mem: seq<Page>, free: set<nat>, root: nat,
                    ntabs: map<Path, nat>, copied: map<Path, nat>, base: nat, pages: set<Path>)
    requires ForkOk(mem0, free0, otabs, 256, mem, free, root, ntabs, copied, base) && PagesOf(mem0, otabs, pages)
    ensures copied.Keys <= pages && |copied| <= POOL
  {
    hide SpaceOk, Kept, Needed, PoolOk, IsPage, Leaf;
    forall q | q in copied
      ensures q in pages
    {
      CopyPresent(mem0, otabs, mem, ntabs, q, copied[q]);
    }
  }

  lemma InPages(mem0: seq<Page>, otabs: map<Path, nat>, pages: set<Path>, q: Path)
    requires PagesOf(mem0, otabs, pages) && IsPage(q, 256) && Present(Leaf(mem0, otabs, q))
    ensures q in pages
  {
  }

  // A page left when the pool is used up shows that the parent has more pages than the pool.
  lemma TooManyPages(copied: map<Path, nat>, pages: set<Path>, q: Path)
    requires copied.Keys <= pages && |copied| == POOL && q in pages && q !in copied
    ensures |pages| > POOL
  {
    SubsetSize(copied.Keys + {q}, pages);
  }

  // A table that cannot be had shows that the pages of the parent need more of them than there are.
  lemma TooManyTables(mem0: seq<Page>, free0: set<nat>, otabs: map<Path, nat>, mem: seq<Page>, free: set<nat>, root: nat,
                      ntabs: map<Path, nat>, copied: map<Path, nat>, base: nat, pages: set<Path>, q: Path)
    requires ForkOk(mem0, free0, otabs, 256, mem, free, root, ntabs, copied, base)
    requires copied.Keys <= pages && q in pages && |q| == LEVELS && |Above(q) - ntabs.Keys| > |free|
    ensures |Needed(pages)| + POOL > |free0|
  {
    hide SpaceOk, Kept, PoolOk, CopiesOk, Needed, Above;
    NeededAdd(copied.Keys, q);
    NeededMore(copied.Keys + {q}, pages);
    RoomExactly(ntabs, free, q);
    assert |ntabs.Keys + Above(q)| > |ntabs| + |free| by {
      assert |ntabs.Keys| == |ntabs|;
    }
  }

  // A fork that is done had enough of both.
  lemma EnoughOfBoth(mem0: seq<Page>, free0: set<nat>, otabs: map<Path, nat>, mem: seq<Page>, free: set<nat>, root: nat,
                     ntabs: map<Path, nat>, copied: map<Path, nat>, base: nat, pages: set<Path>)
    requires ForkOk(mem0, free0, otabs, 256, mem, free, root, ntabs, copied, base) && PagesOf(mem0, otabs, pages)
    requires Covered(mem0, otabs, [], ENTRIES, copied, 256)
    ensures copied.Keys == pages && |pages| <= POOL && |Needed(pages)| + POOL <= |free0|
  {
    hide SpaceOk, Kept, PoolOk, CopiesOk, Needed, IsPage, Leaf;
    CopiedPages(mem0, free0, otabs, mem, free, root, ntabs, copied, base, pages);
    forall q | q in pages
      ensures q in copied
    {
      PageUnderRoot(q);
    }
    assert |copied.Keys| == |copied| && |ntabs.Keys| == |ntabs|;
  }

  // One turn of the fork's loop: what the parent's word says.
  lemma ForkEntry(mem0: seq<Page>, free0: set<nat>, oroot: nat, otabs: map<Path, nat>, mem: seq<Page>, free: set<nat>,
                  root: nat, ntabs: map<Path, nat>, copied: map<Path, nat>, base: nat, p: Path, i: nat)
    requires ParentOk(mem0, free0, oroot, otabs, 256)
    requires ForkOk(mem0, free0, otabs, 256, mem, free, root, ntabs, copied, base)
    requires p in otabs && |p| < LEVELS && Within(p, 256) && i < ENTRIES && (p == [] ==> i < 256)
    ensures Within(p + [i], 256) && TreeOk(mem0, oroot, otabs, 256) && |copied| <= POOL
    ensures otabs[p] < |mem| && |mem[otabs[p]]| == ENTRIES
    ensures |p| < 3 ==> (Present(mem[otabs[p]][i]) <==> p + [i] in otabs)
    ensures |p| < 3 && p + [i] in otabs ==> FrameOf(mem[otabs[p]][i]) == otabs[p + [i]]
    ensures |p| == 3 ==>
              (p + [i])[..3] == p && p + [i] !in otabs && IsPage(p + [i], 256) && Leaf(mem0, otabs, p + [i]) == mem[otabs[p]][i]
  {
    hide ForkOk, ParentOk, Leaf, IsPage, Within, TreeOk;
    WithinChild(p, i, 256);
    ForkKept(mem0, free0, otabs, 256, mem, free, root, ntabs, copied, base);
    ParentWord(mem0, free0, oroot, otabs, 256, mem, p);
    ParentEntry(mem0, free0, oroot, otabs, 256, p, i);
    ParentTree(mem0, free0, oroot, otabs, 256);
  }

  // ... after a page was copied,
  lemma PageStep(mem0: seq<Page>, oroot: nat, otabs: map<Path, nat>, copied: map<Path, nat>, mid: map<Path, nat>,
                 p: Path, i: nat, f: nat)
    requires TreeOk(mem0, oroot, otabs, 256) && p in otabs && i < ENTRIES && Within(p + [i], 256)
    requires Extends(copied, mid, p, i) && p + [i] !in mid && p + [i] !in otabs && Covered(mem0, otabs, p, i, mid, 256)
    ensures Extends(copied, mid[p + [i] := f], p, i + 1) && |mid[p + [i] := f]| == |mid| + 1
    ensures Covered(mem0, otabs, p, i + 1, mid[p + [i] := f], 256)
  {
    hide Covered, Extends, Leaf, TreeOk, Within;
    ExtendsPage(copied, mid, p, i, f);
    MapGrows(mid, p + [i], f);
    CoverMore(mem0, otabs, p, i, mid, mid[p + [i] := f], 256);
    CoverNext(mem0, oroot, otabs, p, i, mid[p + [i] := f], 256);
  }

  // ... and after all pages below a table were.
  lemma BelowStep(mem0: seq<Page>, oroot: nat, otabs: map<Path, nat>, mid: map<Path, nat>, copied': map<Path, nat>,
                  p: Path, i: nat)
    requires TreeOk(mem0, oroot, otabs, 256) && p in otabs && i < ENTRIES && Within(p + [i], 256) && |p| < 3
    requires Extends(mid, copied', p + [i], ENTRIES) && Covered(mem0, otabs, p, i, mid, 256)
    requires Covered(mem0, otabs, p + [i], ENTRIES, copied', 256)
    ensures Covered(mem0, otabs, p, i + 1, copied', 256)
  {
    hide Covered, Extends, Leaf, TreeOk, Within;
    ExtendsKeeps(mid, copied', p + [i], ENTRIES);
    CoverMore(mem0, otabs, p, i, mid, copied', 256);
    CoverNext(mem0, oroot, otabs, p, i, copied', 256);
  }

  // The word of a table of the parent, as the tree sees it.
  lemma ParentEntry(mem0: seq<Page>, free0: set<nat>, oroot: nat, otabs: map<Path, nat>, top: nat, p: Path, i: nat)
    requires ParentOk(mem0, free0, oroot, otabs, top) && p in otabs && i < ENTRIES && Within(p + [i], top)
    ensures otabs[p] < |mem0| && |mem0[otabs[p]]| == ENTRIES
    ensures |p| < 3 ==> (Present(mem0[otabs[p]][i]) <==> p + [i] in otabs)
    ensures |p| < 3 && p + [i] in otabs ==> FrameOf(mem0[otabs[p]][i]) == otabs[p + [i]]
    ensures |p| == 3 ==> p + [i] !in otabs && IsPage(p + [i], top) && Leaf(mem0, otabs, p + [i]) == mem0[otabs[p]][i]
  {
    var c := p + [i];
    assert Up(c) == p && Last(c) == i;
    if |p| < 3 {
      assert LinkOk(mem0, otabs, c);
    } else {
      assert c[..3] == p;
    }
  }

  lemma WithinChild(p: Path, i: nat, top: nat)
    requires Within(p, top) && i < ENTRIES && (p == [] ==> i < top)
    ensures Within(p + [i], top)
  {
  }

  lemma ForkStarts(mem0: seq<Page>, otabs: map<Path, nat>, p: Path, copied: map<Path, nat>, top: nat)
    ensures Extends(copied, copied, p, 0) && Covered(mem0, otabs, p, 0, copied, top)
  {
  }

  lemma ForkKept(mem0: seq<Page>, free0: set<nat>, otabs: map<Path, nat>, top: nat, mem: seq<Page>, free: set<nat>,
                 root: nat, ntabs: map<Path, nat>, copied: map<Path, nat>, base: nat)
    requires ForkOk(mem0, free0, otabs, top, mem, free, root, ntabs, copied, base)
    ensures Kept(mem0, mem, free0) && |copied| <= POOL
  {
  }

  lemma ParentTree(mem0: seq<Page>, free0: set<nat>, oroot: nat, otabs: map<Path, nat>, top: nat)
    requires ParentOk(mem0, free0, oroot, otabs, top)
    ensures TreeOk(mem0, oroot, otabs, top)
  {
  }

  lemma SelfUnder(c: Path)
    ensures Under(c, c)
  {
  }

  lemma ExtendsUpTo(copied: map<Path, nat>, copied': map<Path, nat>, p: Path, n: nat)
    requires Extends(copied, copied', p, n) && n <= ENTRIES
    ensures Extends(copied, copied', p, ENTRIES)
  {
  }

  lemma ExtendsWider(copied: map<Path, nat>, copied': map<Path, nat>, p: Path, n: nat)
    requires Extends(copied, copied', p, n)
    ensures Extends(copied, copied', p, n + 1)
  {
  }

  lemma ExtendsKeeps(mid: map<Path, nat>, copied': map<Path, nat>, p: Path, n: nat)
    requires Extends(mid, copied', p, n)
    ensures mid.Keys <= copied'.Keys
  {
  }

  lemma MapGrows(mid: map<Path, nat>, c: Path, f: nat)
    requires c !in mid
    ensures mid.Keys <= mid[c := f].Keys && |mid[c := f]| == |mid| + 1
  {
    assert mid[c := f].Keys == mid.Keys + {c};
    assert |mid[c := f]| == |mid[c := f].Keys|;
  }

  lemma CoverMore(mem0: seq<Page>, otabs: map<Path, nat>, p: Path, n: nat, mid: map<Path, nat>, copied': map<Path, nat>, top: nat)
    requires Covered(mem0, otabs, p, n, mid, top) && mid.Keys <= copied'.Keys
    ensures Covered(mem0, otabs, p, n, copied', top)
  {
  }

  // ---------- the whole fork ----------

  // The child of a fork: it maps exactly the parent's pages, with the same flags and contents, each
  // in a frame of its own.
  ghost predicate ForkedFrom(mem0: seq<Page>, otabs: map<Path, nat>, mem: seq<Page>, ntabs: map<Path, nat>, top: nat,
                             copied: map<Path, nat>) {
    && (forall q :: IsPage(q, top) ==>
          if Present(Leaf(mem0, otabs, q)) then q in copied && CopyOk(mem0, otabs, mem, ntabs, q, copied[q])
          else Leaf(mem, ntabs, q) == 0)
    && (forall q :: q in copied ==> IsPage(q, top) && Present(Leaf(mem0, otabs, q)))
    && (forall q, r :: q in copied && r in copied && copied[q] == copied[r] ==> q == r)
  }

  // The frames of the child are distinct, none of them free, and with the free frames they are all
  // the frames that were free before.
  ghost predicate FramesConserved(free0: set<nat>, free: set<nat>, ntabs: map<Path, nat>, copied: map<Path, nat>) {
    && Frames(ntabs) !! free && copied.Values !! free && Frames(ntabs) !! copied.Values
    && free + Frames(ntabs) + copied.Values == free0
  }

  // Before anything is copied: `free0` is what the fork takes from, its root, its pool and what is
  // still free.
  lemma ForkBegins(mem0: seq<Page>, free0: set<nat>, oroot: nat, otabs: map<Path, nat>, mem: seq<Page>, free: set<nat>,
                   root: nat, base: nat)
    requires ParentOk(mem0, free0, oroot, otabs, 256) && base + POOL <= |mem0|
    requires root !in free && root !in Run(base, base + POOL) && free !! Run(base, base + POOL)
    requires free0 == free + {root} + Run(base, base + POOL) && forall f :: f in free0 ==> f < |mem0|
    requires root < |mem0| && mem == mem0[root := ZeroPage()]
    ensures ForkOk(mem0, free0, otabs, 256, mem, free, root, map[[] := root], map[], base)
  {
    hide LinksOk, TabsOk, MemOk, Leaf, Within, Run, PoolOk, Needed;
    RootIn(mem0, oroot, otabs, 256);
    ZeroedMemOk(mem0, root);
    FreshRoot(mem, free, root, 256);
    PoolBegins(free0, root, base, free, |mem|);
    NeededNone();
    var ntabs: map<Path, nat> := map[[] := root];
    var none: map<Path, nat> := map[];
    assert |ntabs| == 1 && ntabs.Keys == {[]} && none.Keys == {};
  }

  lemma PoolBegins(free0: set<nat>, root: nat, base: nat, free: set<nat>, frames: nat)
    requires root !in free && root !in Run(base, base + POOL) && free !! Run(base, base + POOL)
    requires free0 == free + {root} + Run(base, base + POOL) && base + POOL <= frames
    ensures PoolOk(frames, free0, free, map[[] := root], base)
    ensures |free| + 1 + POOL == |free0|
  {
    hide Frames, Run;
    RunSize(base, base + POOL);
    OneFrame(root);
    assert free + {root} == free0 - Run(base, base + POOL);
    assert free + {root} !! Run(base, base + POOL);
  }

  lemma OneFrame(root: nat)
    ensures Frames(map[[] := root]) == {root}
  {
    var tabs: map<Path, nat> := map[[] := root];
    assert tabs[[]] == root;
  }

  lemma AllCopied(mem0: seq<Page>, free0: set<nat>, otabs: map<Path, nat>, mem: seq<Page>, free: set<nat>, root: nat,
                  ntabs: map<Path, nat>, copied: map<Path, nat>, base: nat)
    requires ForkOk(mem0, free0, otabs, 256, mem, free, root, ntabs, copied, base)
    requires Covered(mem0, otabs, [], ENTRIES, copied, 256)
    ensures ForkedFrom(mem0, otabs, mem, ntabs, 256, copied)
  {
    hide Leaf, CopyOk, TreeOk, IsPage, PoolOk, Kept;
    forall q | q in copied
      ensures Present(Leaf(mem0, otabs, q))
    {
      CopyPresent(mem0, otabs, mem, ntabs, q, copied[q]);
    }
    forall q | IsPage(q, 256) && Present(Leaf(mem0, otabs, q))
      ensures q in copied && CopyOk(mem0, otabs, mem, ntabs, q, copied[q])
    {
      PageUnderRoot(q);
    }
  }

  lemma PageUnderRoot(q: Path)
    requires IsPage(q, 256)
    ensures Under([], q) && |q| > 0 && q[0] < ENTRIES
  {
  }

  // The copies fill the front of the pool, one frame each.
  lemma CopiesFillPool(copied: map<Path, nat>, base: nat)
    requires forall q :: q in copied ==> base <= copied[q] < base + |copied|
    requires forall q, r :: q in copied && r in copied && copied[q] == copied[r] ==> q == r
    ensures copied.Values == Run(base, base + |copied|)
  {
    ValuesSize(copied);
    RunSize(base, base + |copied|);
    assert copied.Values <= Run(base, base + |copied|);
    SubsetEqual(copied.Values, Run(base, base + |copied|));
  }

  lemma {:induction false} ValuesSize(m: map<Path, nat>)
    requires forall q, r :: q in m && r in m && m[q] == m[r] ==> q == r
    ensures |m.Values| == |m|
    decreases |m|
  {
    if m.Keys == {} {
      assert m.Values == {};
    } else {
      var q :| q in m;
      var m' := m - {q};
      assert m'.Keys == m.Keys - {q};
      assert |m'| == |m'.Keys| && |m| == |m.Keys|;
      ValuesSize(m');
      assert m.Values == m'.Values + {m[q]} by {
        forall v | v in m.Values
          ensures v in m'.Values + {m[q]}
        {
          var r :| r in m && m[r] == v;
          if r != q {
            assert r in m' && m'[r] == v;
          }
        }
        assert m[q] in m.Values;
      }
      assert m[q] !in m'.Values;
    }
  }

  lemma SubsetEqual(a: set<nat>, b: set<nat>)
    requires a <= b && |a| == |b|
    ensures a == b
  {
    if a != b {
      var x :| x in b && x !in a;
      SubsetSize(a, b - {x});
    }
  }

  lemma ZeroedMemOk(mem: seq<Page>, f: nat)
    requires MemOk(mem) && f < |mem|
    ensures MemOk(mem[f := ZeroPage()])
  {
  }

  // Giving back the rest of the pool.
  lemma PoolReturned(mem0: seq<Page>, free0: set<nat>, otabs: map<Path, nat>, mem: seq<Page>, free: set<nat>, root: nat,
                     ntabs: map<Path, nat>, copied: map<Path, nat>, base: nat)
    requires ForkOk(mem0, free0, otabs, 256, mem, free, root, ntabs, copied, base)
    ensures |copied| <= POOL
    ensures SpaceOk(mem, free + Run(base + |copied|, base + POOL), root, ntabs, 256)
    ensures FramesConserved(free0, free + Run(base + |copied|, base + POOL), ntabs, copied)
  {
    hide ForkOk, SpaceOk, PoolOk, CopiesOk, Frames, Run;
    ForkParts(mem0, free0, otabs, mem, free, root, ntabs, copied, base);
    CopiesFill(mem0, otabs, mem, ntabs, copied, base);
    var used, rest := Run(base, base + |copied|), Run(base + |copied|, base + POOL);
    RunSplit(base, base + |copied|, base + POOL);
    PoolParts(mem, free0, free, root, ntabs, base);
    SplitFrames(free0, free, Frames(ntabs), Run(base, base + POOL), used, rest);
    RunBelow(base + |copied|, base + POOL, |mem|);
    SpaceGains(mem, free, rest, root, ntabs, 256);
  }

  // Free frames that the fork never saw change nothing.
  lemma FramesBeside(past: set<nat>, free0: set<nat>, free: set<nat>, ntabs: map<Path, nat>, copied: map<Path, nat>)
    requires FramesConserved(free0, free, ntabs, copied) && past !! free0
    ensures FramesConserved(past + free0, past + free, ntabs, copied)
  {
    hide Frames;
    assert free <= free0 && Frames(ntabs) <= free0 && copied.Values <= free0;
  }

  lemma ParentLess(mem: seq<Page>, a: set<nat>, b: set<nat>, root: nat, tabs: map<Path, nat>, top: nat)
    requires ParentOk(mem, b, root, tabs, top) && a <= b
    ensures ParentOk(mem, a, root, tabs, top)
  {
    hide TreeOk, Leaf, IsPage;
  }

  lemma ForkParts(mem0: seq<Page>, free0: set<nat>, otabs: map<Path, nat>, mem: seq<Page>, free: set<nat>, root: nat,
                  ntabs: map<Path, nat>, copied: map<Path, nat>, base: nat)
    requires ForkOk(mem0, free0, otabs, 256, mem, free, root, ntabs, copied, base)
    ensures SpaceOk(mem, free, root, ntabs, 256) && PoolOk(|mem|, free0, free, ntabs, base)
    ensures CopiesOk(mem0, otabs, mem, ntabs, 256, copied, base)
  {
    hide SpaceOk, PoolOk, CopiesOk, Kept;
  }

  lemma PoolParts(mem: seq<Page>, free0: set<nat>, free: set<nat>, root: nat, ntabs: map<Path, nat>, base: nat)
    requires SpaceOk(mem, free, root, ntabs, 256) && PoolOk(|mem|, free0, free, ntabs, base)
    ensures base + POOL <= |mem| && Frames(ntabs) !! free
    ensures Run(base, base + POOL) <= free0 && free + Frames(ntabs) == free0 - Run(base, base + POOL)
  {
    hide Run, Frames, TreeOk;
  }

  lemma SpaceGains(mem: seq<Page>, free: set<nat>, more: set<nat>, root: nat, tabs: map<Path, nat>, top: nat)
    requires SpaceOk(mem, free, root, tabs, top) && Frames(tabs) !! free + more && forall f :: f in more ==> f < |mem|
    ensures SpaceOk(mem, free + more, root, tabs, top)
  {
    hide TreeOk, Frames;
  }

  lemma CopiesFill(mem0: seq<Page>, otabs: map<Path, nat>, mem: seq<Page>, ntabs: map<Path, nat>, copied: map<Path, nat>,
                   base: nat)
    requires CopiesOk(mem0, otabs, mem, ntabs, 256, copied, base)
    ensures |copied| <= POOL && copied.Values == Run(base, base + |copied|)
  {
    hide Leaf, Run, CopyOk, IsPage;
    CopiesFillPool(copied, base);
  }

  lemma SplitFrames(free0: set<nat>, free: set<nat>, tables: set<nat>, pool: set<nat>, used: set<nat>, rest: set<nat>)
    requires pool <= free0 && free + tables == free0 - pool && tables !! free && pool == used + rest && used !! rest
    ensures (free + rest) + tables + used == free0
    ensures tables !! free + rest && used !! free + rest && tables !! used
  {
    assert pool !! free + tables;
  }

  lemma UpperKeepsFork(mem0: seq<Page>, otabs: map<Path, nat>, mem: seq<Page>, free: set<nat>, root: nat,
                       ntabs: map<Path, nat>, copied: map<Path, nat>, i: nat, w: nat)
    requires SpaceOk(mem, free, root, ntabs, 256) && ForkedFrom(mem0, otabs, mem, ntabs, 256, copied)
    requires 256 <= i < ENTRIES && root !in copied.Values
    ensures root < |mem| && |mem[root]| == ENTRIES
    ensures SpaceOk(Stored(mem, root, i, w), free, root, ntabs, 256)
    ensures ForkedFrom(mem0, otabs, Stored(mem, root, i, w), ntabs, 256, copied)
  {
    hide Leaf, CopyOk, TreeOk;
    StoreUpper(mem, free, root, ntabs, 256, i, w);
    var mem' := Stored(mem, root, i, w);
    forall q | q in copied
      ensures CopyOk(mem0, otabs, mem', ntabs, q, copied[q])
    {
      assert copied[q] != root;
      CopyKept(mem0, otabs, mem, ntabs, mem', ntabs, q, copied[q]);
    }
  }

  // ---------- freeing an address space ----------

  // The frames an address space owns, by path: its tables, and the frames of its mapped pages.
  ghost predicate Owns(mem: seq<Page>, root: nat, tabs: map<Path, nat>, data: map<Path, nat>, top: nat) {
    && TreeOk(mem, root, tabs, top)
    && (forall q :: q in data <==> IsPage(q, top) && Present(Leaf(mem, tabs, q)))
    && (forall q :: q in data ==> data[q] == FrameOf(Leaf(mem, tabs, q)))
  }

  lemma OwnsShape(mem: seq<Page>, root: nat, tabs: map<Path, nat>, data: map<Path, nat>, top: nat)
    requires Owns(mem, root, tabs, data, top)
    ensures Closed(tabs + data) && forall c, i :: c in tabs + data && 0 <= i < |c| ==> c[i] < ENTRIES
    ensures forall c :: c in tabs + data && c != [] ==> c[0] < top
  {
    forall c | c in tabs + data && c != []
      ensures Up(c) in tabs + data
    {
      if c in data {
        assert Up(c) == c[..3];
      } else {
        assert LinkOk(mem, tabs, c);
      }
    }
  }

  // The entry `i` of the table at `p`, as the owned frames see it.
  lemma OwnsEntry(mem: seq<Page>, root: nat, tabs: map<Path, nat>, data: map<Path, nat>, top: nat, p: Path, i: nat)
    requires Owns(mem, root, tabs, data, top) && p in tabs && i < ENTRIES && Within(p + [i], top)
    ensures tabs[p] < |mem| && |mem[tabs[p]]| == ENTRIES
    ensures Present(mem[tabs[p]][i]) <==> p + [i] in tabs + data
    ensures p + [i] in tabs + data ==> (tabs + data)[p + [i]] == FrameOf(mem[tabs[p]][i])
    ensures |p| < 3 && p + [i] in tabs + data ==> p + [i] in tabs && tabs[p + [i]] == FrameOf(mem[tabs[p]][i])
    ensures |p| == 3 ==> p + [i] !in tabs
  {
    var c := p + [i];
    assert Up(c) == p && Last(c) == i;
    if |p| < 3 {
      assert LinkOk(mem, tabs, c);
    } else {
      assert c[..3] == p;
    }
  }

  // Nothing lies below a page.
  lemma NothingBelowPage(mem: seq<Page>, root: nat, tabs: map<Path, nat>, data: map<Path, nat>, top: nat, c: Path)
    requires Owns(mem, root, tabs, data, top) && |c| == LEVELS
    ensures Part(tabs + data, c, ENTRIES) == {}
  {
  }

  // Below the root only the first `top` entries count.
  lemma PartTop(all: map<Path, nat>, top: nat)
    requires top <= ENTRIES && forall c :: c in all && c != [] ==> c[0] < top
    ensures Part(all, [], top) == Part(all, [], ENTRIES)
  {
  }

  lemma PartWhole(all: map<Path, nat>)
    requires [] in all && forall c, i :: c in all && 0 <= i < |c| ==> c[i] < ENTRIES
    ensures Part(all, [], ENTRIES) + {all[[]]} == all.Values
  {
    forall v | v in all.Values
      ensures v in Part(all, [], ENTRIES) + {all[[]]}
    {
      var c :| c in all && all[c] == v;
      if c != [] {
        assert Under([], c) && c[0] < ENTRIES;
      }
    }
  }

  lemma ParentMem(mem: seq<Page>, root: nat, tabs: map<Path, nat>, top: nat)
    requires TreeOk(mem, root, tabs, top)
    ensures MemOk(mem)
  {
  }

  // The child's root is one of its tables, so no copy is in it.
  lemma RootNotCopied(mem: seq<Page>, free0: set<nat>, free: set<nat>, root: nat, ntabs: map<Path, nat>, copied: map<Path, nat>)
    requires SpaceOk(mem, free, root, ntabs, 256) && FramesConserved(free0, free, ntabs, copied)
    ensures root !in copied.Values && root in free0
  {
    FrameIn(ntabs, []);
  }

  lemma PartNone(all: map<Path, nat>, p: Path)
    ensures Part(all, p, 0) == {}
  {
  }

  // What hangs below entry `i`, and the entry's own frame, are apart from each other and from what
  // hangs below earlier entries.
  lemma PartApart(all: map<Path, nat>, p: Path, i: nat)
    requires Injective(all)
    ensures p + [i] in all ==> all[p + [i]] !in Part(all, p + [i], ENTRIES) && all[p + [i]] !in Part(all, p, i)
    ensures Part(all, p + [i], ENTRIES) !! Part(all, p, i)
  {
    var child, low, below := p + [i], Part(all, p, i), Part(all, p + [i], ENTRIES);
    if child in all {
      UnderChild(p, i, child);
    }
    forall f | f in low
      ensures f !in below
    {
      if f in below {
        var c :| c in all && Under(p, c) && |p| < |c| && c[|p|] < i && all[c] == f;
        var d :| d in all && Under(child, d) && |child| < |d| && all[d] == f;
        UnderChild(p, i, d);
      }
    }
  }

  lemma PartMono(all: map<Path, nat>, p: Path, n: nat)
    ensures n <= ENTRIES ==> Part(all, p, n) <= Part(all, p, ENTRIES)
  {
  }

  lemma RootApart(all: map<Path, nat>)
    requires Injective(all) && [] in all
    ensures all[[]] !in Part(all, [], ENTRIES)
  {
  }

  lemma OwnsRoot(mem: seq<Page>, root: nat, tabs: map<Path, nat>, data: map<Path, nat>, top: nat)
    requires Owns(mem, root, tabs, data, top)
    ensures [] in tabs && tabs[[]] == root && (tabs + data)[[]] == root && Within([], top)
  {
  }

  // A fork owns its tables and its copies.
  lemma ForkOwns(mem0: seq<Page>, otabs: map<Path, nat>, mem: seq<Page>, free: set<nat>, root: nat, ntabs: map<Path, nat>,
                 copied: map<Path, nat>)
    requires SpaceOk(mem, free, root, ntabs, 256) && ForkedFrom(mem0, otabs, mem, ntabs, 256, copied)
    ensures Owns(mem, root, ntabs, copied, 256)
  {
    hide Leaf, TreeOk, IsPage, CopyOk;
    forall q | IsPage(q, 256)
      ensures q in copied <==> Present(Leaf(mem, ntabs, q))
      ensures q in copied ==> copied[q] == FrameOf(Leaf(mem, ntabs, q))
    {
      if q in copied {
        CopyShows(mem0, otabs, mem, ntabs, q, copied[q]);
      }
    }
  }

  lemma CopyPresent(mem0: seq<Page>, otabs: map<Path, nat>, mem: seq<Page>, ntabs: map<Path, nat>, q: Path, f: nat)
    requires CopyOk(mem0, otabs, mem, ntabs, q, f)
    ensures Present(Leaf(mem0, otabs, q))
  {
  }

  lemma CopyShows(mem0: seq<Page>, otabs: map<Path, nat>, mem: seq<Page>, ntabs: map<Path, nat>, q: Path, f: nat)
    requires CopyOk(mem0, otabs, mem, ntabs, q, f)
    ensures Present(Leaf(mem, ntabs, q)) && FrameOf(Leaf(mem, ntabs, q)) == f
  {
  }

  lemma ForkInjective(mem: seq<Page>, free0: set<nat>, free: set<nat>, root: nat, ntabs: map<Path, nat>,
                      copied: map<Path, nat>)
    requires SpaceOk(mem, free, root, ntabs, 256) && FramesConserved(free0, free, ntabs, copied)
    requires forall q, r :: q in copied && r in copied && copied[q] == copied[r] ==> q == r
    requires forall q :: q in copied ==> IsPage(q, 256)
    ensures Injective(ntabs + copied) && (ntabs + copied).Values == Frames(ntabs) + copied.Values
  {
    hide LinksOk, MemOk;
    var all := ntabs + copied;
    forall c | c in ntabs
      ensures c !in copied && all[c] == ntabs[c]
    {
    }
    forall c, d | c in all && d in all && all[c] == all[d]
      ensures c == d
    {
      assert all[c] in (if c in copied then copied.Values else Frames(ntabs));
      assert all[d] in (if d in copied then copied.Values else Frames(ntabs));
    }
    forall v | v in Frames(ntabs) + copied.Values
      ensures v in all.Values
    {
      if v in Frames(ntabs) {
        var c :| c in ntabs && ntabs[c] == v;
        assert all[c] == v;
      } else {
        var c :| c in copied && copied[c] == v;
        assert all[c] == v;
      }
    }
  }

  // What a fork holds is what freeing it gives back.
  lemma ForkCanBeFreed(mem0: seq<Page>, otabs: map<Path, nat>, mem: seq<Page>, free0: set<nat>, free: set<nat>, root: nat,
                       ntabs: map<Path, nat>, copied: map<Path, nat>)
    requires SpaceOk(mem, free, root, ntabs, 256) && ForkedFrom(mem0, otabs, mem, ntabs, 256, copied)
    requires FramesConserved(free0, free, ntabs, copied)
    ensures Owns(mem, root, ntabs, copied, 256) && Injective(ntabs + copied)
    ensures (ntabs + copied).Values !! free && free + (ntabs + copied).Values == free0
  {
    hide SpaceOk, Owns, Injective, Frames, Leaf, IsPage, CopyOk;
    ForkOwns(mem0, otabs, mem, free, root, ntabs, copied);
    ForkInjective(mem, free0, free, root, ntabs, copied);
  }
}

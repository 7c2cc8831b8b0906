// Four-level page tables in physical memory (Intel SDM volume 3A, section 4.5), as a value: the
// tables of an address space, what it translates, and what a change of one word does to it.

module PageTables {
  const ENTRIES: nat := 512
  const PAGE: nat := 4096
  const LEVELS: nat := 4

  // A page of physical memory, as 64-bit words.
  type Page = seq<nat>

  // The indices from the root down: a path of length 0 is the root table, of length 3 a page
  // table, and of length 4 a page.
  type Path = seq<nat>

  predicate Present(w: nat) {
    w % 2 == 1
  }

  function FrameOf(w: nat): nat {
    w / PAGE
  }

  function FlagsOf(w: nat): nat {
    w % PAGE
  }

  function Word(frame: nat, flags: nat): (w: nat)
    requires flags < PAGE
    ensures FrameOf(w) == frame && FlagsOf(w) == flags && (Present(w) <==> flags % 2 == 1)
  {
    frame * PAGE + flags
  }

  // Paths below the first `top` entries of the root: 256 for a process, whose upper half belongs
  // to the kernel.
  ghost predicate Within(p: Path, top: nat) {
    (forall i :: 0 <= i < |p| ==> p[i] < ENTRIES) && (p != [] ==> p[0] < top)
  }

  ghost predicate MemOk(mem: seq<Page>) {
    forall f :: 0 <= f < |mem| ==> |mem[f]| == ENTRIES
  }

  function Up(p: Path): Path {
    if p == [] then [] else p[..|p| - 1]
  }

  function Last(p: Path): nat {
    if p == [] then 0 else p[|p| - 1]
  }

  // Distinct frames of memory for the tables, the root at `root`.
  ghost predicate TabsOk(frames: nat, root: nat, tabs: map<Path, nat>, top: nat) {
    && top <= ENTRIES && [] in tabs && tabs[[]] == root
    && (forall p :: p in tabs ==> |p| < LEVELS && tabs[p] < frames && Within(p, top))
    && (forall p, q :: p in tabs && q in tabs && tabs[p] == tabs[q] ==> p == q)
  }

  // Path `c` is a table exactly when the table above it has a present entry, which points to it.
  ghost predicate LinkOk(mem: seq<Page>, tabs: map<Path, nat>, c: Path) {
    && (c in tabs <==>
          && Up(c) in tabs && tabs[Up(c)] < |mem| && Last(c) < |mem[tabs[Up(c)]]|
          && Present(mem[tabs[Up(c)]][Last(c)]))
    && (c in tabs ==> FrameOf(mem[tabs[Up(c)]][Last(c)]) == tabs[c])
  }

  ghost predicate LinksOk(mem: seq<Page>, tabs: map<Path, nat>, top: nat) {
    forall c {:trigger LinkOk(mem, tabs, c)} :: 0 < |c| < LEVELS && Within(c, top) ==> LinkOk(mem, tabs, c)
  }

  // `tabs` is where the tables of the address space at `root` are: distinct frames, linked by
  // exactly the present entries.
  ghost predicate TreeOk(mem: seq<Page>, root: nat, tabs: map<Path, nat>, top: nat) {
    MemOk(mem) && TabsOk(|mem|, root, tabs, top) && LinksOk(mem, tabs, top)
  }

  // The entry that maps a page; 0, which is not present, if it has no page table.
  function Leaf(mem: seq<Page>, tabs: map<Path, nat>, q: Path): nat {
    if |q| == LEVELS && q[..3] in tabs && tabs[q[..3]] < |mem| && q[3] < |mem[tabs[q[..3]]]| then
      mem[tabs[q[..3]]][q[3]]
    else
      0
  }

  // What the hardware sees: the walk from the root, table by table.
  function Walk(mem: seq<Page>, table: nat, q: Path): nat
    decreases |q|
  {
    if q == [] || table >= |mem| || q[0] >= |mem[table]| then 0
    else if |q| == 1 then mem[table][q[0]]
    else if Present(mem[table][q[0]]) then Walk(mem, FrameOf(mem[table][q[0]]), q[1..])
    else 0
  }

  // The walk and the tree agree on every page.
  lemma {:induction false} WalkIsLeaf(mem: seq<Page>, root: nat, tabs: map<Path, nat>, top: nat, q: Path, n: nat)
    requires TreeOk(mem, root, tabs, top) && |q| == LEVELS && Within(q, top) && n < LEVELS && q[..n] in tabs
    ensures Walk(mem, tabs[q[..n]], q[n..]) == Leaf(mem, tabs, q)
    decreases LEVELS - n
  {
    if n < LEVELS - 1 {
      var c := q[..n + 1];
      assert Up(c) == q[..n] && Last(c) == q[n] && Within(c, top);
      assert LinkOk(mem, tabs, c);
      assert q[n..][1..] == q[n + 1..];
      if c in tabs {
        WalkIsLeaf(mem, root, tabs, top, q, n + 1);
      } else {
        NoTableBelow(mem, root, tabs, top, q, n + 1);
      }
    }
  }

  lemma {:induction false} NoTableBelow(mem: seq<Page>, root: nat, tabs: map<Path, nat>, top: nat, q: Path, n: nat)
    requires TreeOk(mem, root, tabs, top) && |q| == LEVELS && Within(q, top) && n <= 3 && q[..n] !in tabs
    ensures q[..3] !in tabs
    decreases 3 - n
  {
    if n < 3 {
      assert Up(q[..n + 1]) == q[..n] && Within(q[..n + 1], top);
      assert LinkOk(mem, tabs, q[..n + 1]);
      NoTableBelow(mem, root, tabs, top, q, n + 1);
    }
  }

  // ---------- changing one word ----------

  function WithWord(page: Page, i: nat, w: nat): Page
    requires i < |page|
  {
    page[i := w]
  }

  function Stored(mem: seq<Page>, f: nat, i: nat, w: nat): seq<Page>
    requires f < |mem| && i < |mem[f]|
  {
    mem[f := WithWord(mem[f], i, w)]
  }

  function ZeroPage(): Page {
    seq(ENTRIES, _ => 0)
  }

  // Memory after a zeroed frame `f` was linked as table `c`.
  function Linked(mem: seq<Page>, tabs: map<Path, nat>, c: Path, f: nat): seq<Page>
    requires Up(c) in tabs && f < |mem| && tabs[Up(c)] < |mem| && Last(c) < |mem[tabs[Up(c)]]| && Last(c) < ENTRIES
  {
    Stored(mem[f := ZeroPage()], tabs[Up(c)], Last(c), Word(f, 7))
  }

  // Which words linking changes.
  lemma LinkedWords(mem: seq<Page>, tabs: map<Path, nat>, c: Path, f: nat)
    requires MemOk(mem) && Up(c) in tabs && f < |mem| && tabs[Up(c)] < |mem| && tabs[Up(c)] != f && Last(c) < ENTRIES
    ensures var mem' := Linked(mem, tabs, c, f);
            && MemOk(mem') && |mem'| == |mem|
            && (forall i :: 0 <= i < ENTRIES ==> mem'[f][i] == 0)
            && mem'[tabs[Up(c)]][Last(c)] == Word(f, 7)
            && (forall i :: 0 <= i < ENTRIES && i != Last(c) ==> mem'[tabs[Up(c)]][i] == mem[tabs[Up(c)]][i])
            && (forall g :: 0 <= g < |mem| && g != f && g != tabs[Up(c)] ==> mem'[g] == mem[g])
  {
  }

  // Linking a zeroed frame, used by no table, at an absent entry adds an empty table there and
  // changes the translation of no page.
  lemma LinkTable(mem: seq<Page>, root: nat, tabs: map<Path, nat>, top: nat, c: Path, f: nat)
    requires TreeOk(mem, root, tabs, top) && 0 < |c| < LEVELS && Within(c, top)
    requires Up(c) in tabs && c !in tabs && f < |mem| && forall p :: p in tabs ==> tabs[p] != f
    ensures tabs[Up(c)] < |mem| && Last(c) < |mem[tabs[Up(c)]]| && Last(c) < ENTRIES
    ensures TreeOk(Linked(mem, tabs, c, f), root, tabs[c := f], top)
    ensures forall q :: Leaf(Linked(mem, tabs, c, f), tabs[c := f], q) == Leaf(mem, tabs, q)
  {
    hide Linked, LinkOk;
    assert Last(c) < ENTRIES;
    LinkedWords(mem, tabs, c, f);
    forall x | 0 < |x| < LEVELS && Within(x, top)
      ensures LinkOk(Linked(mem, tabs, c, f), tabs[c := f], x)
    {
      LinkOne(mem, root, tabs, top, c, f, x);
    }
    forall q
      ensures Leaf(Linked(mem, tabs, c, f), tabs[c := f], q) == Leaf(mem, tabs, q)
    {
      LinkLeaf(mem, tabs, top, c, f, q);
    }
  }

  lemma LinkLeaf(mem: seq<Page>, tabs: map<Path, nat>, top: nat, c: Path, f: nat, q: Path)
    requires MemOk(mem) && Up(c) in tabs && c !in tabs && f < |mem| && forall p :: p in tabs ==> tabs[p] != f
    requires forall x, y :: x in tabs && y in tabs && tabs[x] == tabs[y] ==> x == y
    requires 0 < |c| < LEVELS && tabs[Up(c)] < |mem| && Last(c) < ENTRIES
    ensures Leaf(Linked(mem, tabs, c, f), tabs[c := f], q) == Leaf(mem, tabs, q)
  {
    hide Linked;
    LinkedWords(mem, tabs, c, f);
    if |q| == LEVELS && q[..3] in tabs {
      assert q[..3] != Up(c);
    }
  }

  lemma LinkOne(mem: seq<Page>, root: nat, tabs: map<Path, nat>, top: nat, c: Path, f: nat, x: Path)
    requires TreeOk(mem, root, tabs, top) && 0 < |c| < LEVELS && Within(c, top)
    requires Up(c) in tabs && c !in tabs && f < |mem| && forall p :: p in tabs ==> tabs[p] != f
    requires 0 < |x| < LEVELS && Within(x, top)
    ensures tabs[Up(c)] < |mem| && Last(c) < |mem[tabs[Up(c)]]| && Last(c) < ENTRIES
    ensures LinkOk(Linked(mem, tabs, c, f), tabs[c := f], x)
  {
    hide Linked, Within, MemOk, LinksOk;
    assert Last(c) < ENTRIES && Last(x) < ENTRIES && |mem[tabs[Up(c)]]| == ENTRIES by {
      LastInRange(mem, tabs, top, c);
      LastInRange(mem, tabs, top, x);
    }
    LinkedWords(mem, tabs, c, f);
    LinkAt(mem, tabs, top, x);
    var mem' := Linked(mem, tabs, c, f);
    LastInRange(mem, tabs, top, x);
    LastInRange(mem', tabs, top, x);
    LinkStep(mem, tabs, c, f, x, mem');
  }

  // Linking, word by word: the entry of `c` now points to `f`, whose entries are absent, and no other
  // entry of a table has changed.
  lemma LinkStep(mem: seq<Page>, tabs: map<Path, nat>, c: Path, f: nat, x: Path, mem': seq<Page>)
    requires |c| > 0 && |x| > 0 && Up(c) in tabs && c !in tabs && f < |mem| == |mem'| && LinkOk(mem, tabs, x)
    requires (forall p :: p in tabs ==> tabs[p] != f && tabs[p] < |mem|)
    requires (forall p, r :: p in tabs && r in tabs && tabs[p] == tabs[r] ==> p == r)
    requires Last(c) < ENTRIES && Last(x) < ENTRIES
    requires (forall g :: 0 <= g < |mem| ==> |mem[g]| == |mem'[g]| == ENTRIES)
    requires (forall i :: 0 <= i < ENTRIES ==> mem'[f][i] == 0) && mem'[tabs[Up(c)]][Last(c)] == Word(f, 7)
    requires forall i :: 0 <= i < ENTRIES && i != Last(c) ==> mem'[tabs[Up(c)]][i] == mem[tabs[Up(c)]][i]
    requires forall g :: 0 <= g < |mem| && g != f && g != tabs[Up(c)] ==> mem'[g] == mem[g]
    ensures LinkOk(mem', tabs[c := f], x)
  {
    assert c == Up(c) + [Last(c)] && x == Up(x) + [Last(x)];
    if x == c {
      assert Up(x) != c;
    } else if Up(x) == c {
      assert Up(x) !in tabs;
    } else if Up(x) == Up(c) {
      assert Last(x) != Last(c);
    }
  }

  lemma LinkAt(mem: seq<Page>, tabs: map<Path, nat>, top: nat, x: Path)
    requires LinksOk(mem, tabs, top) && 0 < |x| < LEVELS && Within(x, top)
    ensures LinkOk(mem, tabs, x)
  {
  }

  lemma LastInRange(mem: seq<Page>, tabs: map<Path, nat>, top: nat, x: Path)
    requires 0 < |x| && Within(x, top) && MemOk(mem)
    ensures Last(x) < ENTRIES && forall g :: 0 <= g < |mem| ==> |mem[g]| == ENTRIES
  {
  }

  // Storing an entry of a page table changes the translation of that page only.
  lemma StoreLeaf(mem: seq<Page>, root: nat, tabs: map<Path, nat>, top: nat, q: Path, w: nat)
    requires TreeOk(mem, root, tabs, top) && |q| == LEVELS && Within(q, top) && q[..3] in tabs
    ensures tabs[q[..3]] < |mem| && q[3] < |mem[tabs[q[..3]]]|
    ensures var mem' := Stored(mem, tabs[q[..3]], q[3], w);
            && TreeOk(mem', root, tabs, top)
            && Leaf(mem', tabs, q) == w
            && forall r :: r != q ==> Leaf(mem', tabs, r) == Leaf(mem, tabs, r)
  {
    var mem' := Stored(mem, tabs[q[..3]], q[3], w);
    StoreLinks(mem, root, tabs, top, q, w);
    forall r | r != q
      ensures Leaf(mem', tabs, r) == Leaf(mem, tabs, r)
    {
      StoreOther(mem, root, tabs, top, q, w, r);
    }
  }

  lemma StoreLinks(mem: seq<Page>, root: nat, tabs: map<Path, nat>, top: nat, q: Path, w: nat)
    requires TreeOk(mem, root, tabs, top) && |q| == LEVELS && Within(q, top) && q[..3] in tabs
    requires tabs[q[..3]] < |mem| && q[3] < |mem[tabs[q[..3]]]|
    ensures LinksOk(Stored(mem, tabs[q[..3]], q[3], w), tabs, top)
  {
    var mem' := Stored(mem, tabs[q[..3]], q[3], w);
    forall c | 0 < |c| < LEVELS && Within(c, top)
      ensures LinkOk(mem', tabs, c)
    {
      assert LinkOk(mem, tabs, c);
      assert Up(c) != q[..3];
    }
  }

  lemma StoreOther(mem: seq<Page>, root: nat, tabs: map<Path, nat>, top: nat, q: Path, w: nat, r: Path)
    requires TreeOk(mem, root, tabs, top) && |q| == LEVELS && q[..3] in tabs && r != q
    requires tabs[q[..3]] < |mem| && q[3] < |mem[tabs[q[..3]]]|
    ensures Leaf(Stored(mem, tabs[q[..3]], q[3], w), tabs, r) == Leaf(mem, tabs, r)
  {
    hide LinksOk, MemOk, Within;
    if |r| == LEVELS && r[..3] in tabs && r[..3] == q[..3] {
      assert r == r[..3] + [r[3]] && q == q[..3] + [q[3]];
    }
  }

  // An address space does not see changes of frames that are none of its tables.
  lemma TreeFrame(mem: seq<Page>, root: nat, tabs: map<Path, nat>, top: nat, mem': seq<Page>)
    requires TreeOk(mem, root, tabs, top) && MemOk(mem') && |mem'| == |mem|
    requires forall p :: p in tabs ==> mem'[tabs[p]] == mem[tabs[p]]
    ensures TreeOk(mem', root, tabs, top)
    ensures forall q :: Leaf(mem', tabs, q) == Leaf(mem, tabs, q)
  {
    forall c | 0 < |c| < LEVELS && Within(c, top)
      ensures LinkOk(mem', tabs, c)
    {
      assert LinkOk(mem, tabs, c);
    }
  }

  // ---------- virtual addresses ----------

  // The index split of `map_page` and its inverse, on 64-bit words.
  function Index4(v: bv64): bv64 {
    (v & (0x1ff << 39)) >> 39
  }

  function Index3(v: bv64): bv64 {
    (v & (0x1ff << 30)) >> 30
  }

  function Index2(v: bv64): bv64 {
    (v & (0x1ff << 21)) >> 21
  }

  function Index1(v: bv64): bv64 {
    (v & (0x1ff << 12)) >> 12
  }

  function EntriesToVirtAddr(i: bv64, j: bv64, k: bv64, l: bv64): bv64 {
    (i << 39) | (j << 30) | (k << 21) | (l << 12)
  }

  // Splitting what was joined gives the indices back, and joining what was split gives the
  // address back up to its page offset and its bits above 48.
  lemma SplitJoin(i: bv64, j: bv64, k: bv64, l: bv64, v: bv64)
    ensures i < 512 && j < 512 && k < 512 && l < 512 ==>
              var u := EntriesToVirtAddr(i, j, k, l);
              Index4(u) == i && Index3(u) == j && Index2(u) == k && Index1(u) == l
    ensures EntriesToVirtAddr(Index4(v), Index3(v), Index2(v), Index1(v)) == v & 0x0000_ffff_ffff_f000
  {
  }

  lemma NextIndex(v: bv64)
    requires v < 511
    ensures (v + 1) as nat == v as nat + 1
  {
  }

  // An index as a 64-bit word.
  function Index(n: nat): (v: bv64)
    requires n < ENTRIES
    ensures v < 512 && v as nat == n
  {
    if n == 0 then 0
    else
      var w := Index(n - 1);
      NextIndex(w);
      w + 1
  }

  lemma IndicesBelow(v: bv64)
    ensures Index4(v) < 512 && Index3(v) < 512 && Index2(v) < 512 && Index1(v) < 512
  {
  }

  lemma SmallWord(v: bv64)
    requires v < 512
    ensures v as nat < ENTRIES
  {
  }

  // The path that an address takes through the tables, and the address of a path.
  function PathOf(v: bv64): (q: Path)
    ensures |q| == LEVELS && forall i :: 0 <= i < |q| ==> q[i] < ENTRIES
  {
    IndicesBelow(v);
    SmallWord(Index4(v));
    SmallWord(Index3(v));
    SmallWord(Index2(v));
    SmallWord(Index1(v));
    [Index4(v) as nat, Index3(v) as nat, Index2(v) as nat, Index1(v) as nat]
  }

  function AddressOf(q: Path): (v: bv64)
    requires |q| == LEVELS && forall i :: 0 <= i < |q| ==> q[i] < ENTRIES
    ensures PathOf(v) == q
  {
    SplitJoin(Index(q[0]), Index(q[1]), Index(q[2]), Index(q[3]), 0);
    EntriesToVirtAddr(Index(q[0]), Index(q[1]), Index(q[2]), Index(q[3]))
  }

  // ---------- consecutive pages ----------

  // How many pages the lower half of an address space has.
  const USER_PAGES: nat := 0x8_0000_0000

  // The page with number `k`, counted from address zero, and the number of a page.
  function PathFrom(k: nat): (q: Path)
    requires k < USER_PAGES
    ensures |q| == LEVELS && (forall i :: 0 <= i < |q| ==> q[i] < ENTRIES) && q[0] < 256
  {
    var a := k / ENTRIES;
    var b := a / ENTRIES;
    [b / ENTRIES, b % ENTRIES, a % ENTRIES, k % ENTRIES]
  }

  function NumberOf(q: Path): (k: nat)
    requires |q| == LEVELS
  {
    ((q[0] * ENTRIES + q[1]) * ENTRIES + q[2]) * ENTRIES + q[3]
  }

  lemma NumberBack(k: nat)
    requires k < USER_PAGES
    ensures NumberOf(PathFrom(k)) == k
  {
  }

  lemma PathBack(q: Path)
    requires |q| == LEVELS && (forall i :: 0 <= i < |q| ==> q[i] < ENTRIES) && q[0] < 256
    ensures NumberOf(q) < USER_PAGES && PathFrom(NumberOf(q)) == q
  {
    var b := q[0] * ENTRIES + q[1];
    var a := b * ENTRIES + q[2];
    var k := a * ENTRIES + q[3];
    assert k / ENTRIES == a && k % ENTRIES == q[3];
    assert a / ENTRIES == b && a % ENTRIES == q[2];
    assert b / ENTRIES == q[0] && b % ENTRIES == q[1];
  }

  // One page up, the last index that is not full grows by one and those behind it start again.
  lemma NextIndices(v: bv64)
    ensures var u := v + 0x1000;
            if Index1(v) < 511 then
              Index1(u) == Index1(v) + 1 && Index2(u) == Index2(v) && Index3(u) == Index3(v) && Index4(u) == Index4(v)
            else if Index2(v) < 511 then
              Index1(u) == 0 && Index2(u) == Index2(v) + 1 && Index3(u) == Index3(v) && Index4(u) == Index4(v)
            else if Index3(v) < 511 then
              Index1(u) == 0 && Index2(u) == 0 && Index3(u) == Index3(v) + 1 && Index4(u) == Index4(v)
            else
              Index4(v) < 511 ==> Index1(u) == 0 && Index2(u) == 0 && Index3(u) == 0 && Index4(u) == Index4(v) + 1
  {
  }

  lemma FullIndex(v: bv64)
    requires v < 512
    ensures v as nat < 511 <==> v < 511
    ensures v < 511 ==> (v + 1) as nat == v as nat + 1
  {
    if v < 511 {
      NextIndex(v);
    }
  }

  // The next page, of any but the last.
  function NextOf(q: Path): (r: Path)
    requires |q| == LEVELS
  {
    if q[3] < 511 then [q[0], q[1], q[2], q[3] + 1]
    else if q[2] < 511 then [q[0], q[1], q[2] + 1, 0]
    else if q[1] < 511 then [q[0], q[1] + 1, 0, 0]
    else [q[0] + 1, 0, 0, 0]
  }

  // The address one page further on.
  function PageUp(v: bv64): bv64 {
    v + 0x1000
  }

  // It is that of the next page.
  lemma NextPath(v: bv64, k: nat)
    requires k + 1 < USER_PAGES && PathOf(v) == PathFrom(k)
    ensures PathOf(PageUp(v)) == PathFrom(k + 1)
  {
    hide PathOf, PathFrom, NextOf, Index4;
    LowHalf(v);
    NextAddress(v);
    NextNumber(k);
  }

  lemma LowHalf(v: bv64)
    requires PathOf(v)[0] < 256
    ensures Index4(v) < 511
  {
    hide Index4;
    IndicesBelow(v);
    FullIndex(Index4(v));
  }

  lemma NextAddress(v: bv64)
    requires Index4(v) < 511
    ensures PathOf(v + 0x1000) == NextOf(PathOf(v))
  {
    hide Index1, Index2, Index3, Index4, NextOf;
    NextIndices(v);
    IndicesBelow(v);
    var u := v + 0x1000;
    NextWords(Index4(v), Index3(v), Index2(v), Index1(v), Index4(u), Index3(u), Index2(u), Index1(u));
  }

  lemma NextWords(i4: bv64, i3: bv64, i2: bv64, i1: bv64, j4: bv64, j3: bv64, j2: bv64, j1: bv64)
    requires i1 < 512 && i2 < 512 && i3 < 512 && i4 < 511
    requires if i1 < 511 then j1 == i1 + 1 && j2 == i2 && j3 == i3 && j4 == i4
             else if i2 < 511 then j1 == 0 && j2 == i2 + 1 && j3 == i3 && j4 == i4
             else if i3 < 511 then j1 == 0 && j2 == 0 && j3 == i3 + 1 && j4 == i4
             else j1 == 0 && j2 == 0 && j3 == 0 && j4 == i4 + 1
    ensures [j4 as nat, j3 as nat, j2 as nat, j1 as nat] == NextOf([i4 as nat, i3 as nat, i2 as nat, i1 as nat])
  {
    FullIndex(i1);
    FullIndex(i2);
    FullIndex(i3);
    FullIndex(i4);
  }

  lemma NextNumber(k: nat)
    requires k + 1 < USER_PAGES
    ensures PathFrom(k + 1) == NextOf(PathFrom(k))
  {
    var a := k / ENTRIES;
    var b := a / ENTRIES;
    Carry(k);
    Carry(a);
    Carry(b);
  }

  lemma Carry(k: nat)
    ensures k % ENTRIES < 511 ==> (k + 1) % ENTRIES == k % ENTRIES + 1 && (k + 1) / ENTRIES == k / ENTRIES
    ensures k % ENTRIES == 511 ==> (k + 1) % ENTRIES == 0 && (k + 1) / ENTRIES == k / ENTRIES + 1
  {
  }
}

// The bitmap of physical pages as a value: searching it for a run of free pages, taking the run, and
// the pages that are free.

module Pmm {
  import opened Bytes
  import opened Runs

  const PAGE_SIZE: nat := 4096

  // The number of the first page of the bitmap.
  const BASE: nat := 4096

  // How a search for pages ends.  At the end of the bitmap the code goes on at the page whose number is
  // the length of the run, instead of at the first page.  `Wraps` is where that, or a run across the
  // end, takes it astray; for runs of `BASE` pages it is the first page all the same.
  datatype PageRun = Found(start: nat) | OutOfMemory | Wraps

  // One flag a page, set for a page in use, and where the next search starts.
  datatype Bitmap = Bitmap(bits: seq<bool>, cur: nat)

  // Pages `s` up to `s + n` are free.
  ghost predicate FreeRun(bits: seq<bool>, s: nat, n: nat) {
    s + n <= |bits| && forall i :: s <= i < s + n ==> !bits[i]
  }

  // No run of `n` free pages starts between `lo` and `hi`.
  ghost predicate NoRun(bits: seq<bool>, lo: nat, hi: nat, n: nat) {
    forall s :: lo <= s < hi ==> !FreeRun(bits, s, n)
  }

  function Marked(bits: seq<bool>, s: nat, n: nat, b: bool): (r: seq<bool>)
    requires s + n <= |bits|
    ensures |r| == |bits| && forall i :: 0 <= i < |r| ==> r[i] == if s <= i < s + n then b else bits[i]
  {
    bits[..s] + seq(n, _ => b) + bits[s + n..]
  }

  // Where the first run of `n` free pages at or after `from` starts; the end if there is none.
  ghost function First(bits: seq<bool>, from: nat, n: nat): (s: nat)
    requires from <= |bits|
    ensures from <= s <= |bits| && NoRun(bits, from, s, n) && (s < |bits| ==> FreeRun(bits, s, n))
    decreases |bits| - from
  {
    if from == |bits| || FreeRun(bits, from, n) then from else First(bits, from + 1, n)
  }

  ghost predicate BitmapOk(b: Bitmap) {
    b.cur <= |b.bits|
  }

  // The last `t` pages of the bitmap and the first `n - t` together make a run.
  ghost predicate CrossesAt(b: Bitmap, n: nat, t: nat) {
    && 0 < t < n && t + b.cur <= |b.bits| && n - t <= b.cur
    && FreeRun(b.bits, |b.bits| - t, t) && FreeRun(b.bits, 0, n - t)
  }

  ghost predicate Crosses(b: Bitmap, n: nat) {
    exists t: nat :: CrossesAt(b, n, t)
  }

  // Where a search for `n` pages finds a run; the end if it does not.  Only a search for `BASE` pages
  // comes back to those before its start.
  ghost function Start(b: Bitmap, n: nat): (s: nat)
    requires BitmapOk(b)
    ensures s < |b.bits| ==> FreeRun(b.bits, s, n)
  {
    var s, again := First(b.bits, b.cur, n), First(b.bits, 0, n);
    if s < |b.bits| then s
    else if n == BASE && !Crosses(b, n) && again + n <= b.cur then again
    else |b.bits|
  }

  // A search for `n` pages finds a run.
  ghost predicate Servable(b: Bitmap, n: nat)
    requires BitmapOk(b)
  {
    Start(b, n) < |b.bits|
  }

  // A search for `n` pages finds none and says so.
  ghost predicate CleanlyFails(b: Bitmap, n: nat)
    requires BitmapOk(b)
  {
    !Servable(b, n) && (b.cur == 0 || (n == BASE && !Crosses(b, n)))
  }

  // The bitmap after a run was found.
  ghost function Taken(b: Bitmap, n: nat): (b': Bitmap)
    requires BitmapOk(b) && Servable(b, n)
    ensures BitmapOk(b') && |b'.bits| == |b.bits|
  {
    var s := Start(b, n);
    Bitmap(Marked(b.bits, s, n, true), s + n)
  }

  // Whether a run is found depends on what lies ahead only.
  lemma ServableExactly(b: Bitmap, n: nat)
    requires BitmapOk(b) && n != BASE
    ensures Servable(b, n) <==> !NoRun(b.bits, b.cur, |b.bits|, n)
    ensures Start(b, n) == First(b.bits, b.cur, n)
  {
  }

  // The run found is the first one.
  lemma FirstIs(bits: seq<bool>, from: nat, n: nat, s: nat)
    requires from <= s < |bits| && FreeRun(bits, s, n) && NoRun(bits, from, s, n)
    ensures First(bits, from, n) == s
  {
  }

  // Searches for runs of these lengths, one after the other, all find one.
  ghost predicate Serves(b: Bitmap, sizes: seq<nat>)
    requires BitmapOk(b)
    decreases |sizes|
  {
    sizes == [] || (Servable(b, sizes[0]) && Serves(Taken(b, sizes[0]), sizes[1..]))
  }

  ghost function After(b: Bitmap, sizes: seq<nat>): (b': Bitmap)
    requires BitmapOk(b) && Serves(b, sizes)
    ensures BitmapOk(b') && |b'.bits| == |b.bits|
    decreases |sizes|
  {
    if sizes == [] then b else After(Taken(b, sizes[0]), sizes[1..])
  }

  // ---------- the search ----------

  // The search started at `first` and has come to `cur`: the last `c` pages are free, and so far there
  // was no run.
  ghost predicate Scanning(bits: seq<bool>, first: nat, cur: nat, n: nat, c: nat) {
    && first <= cur <= |bits| && c < n && first + c <= cur
    && (forall j :: cur - c <= j < cur ==> !bits[j]) && (first + c == cur || bits[cur - c - 1])
    && forall s :: first <= s && s + n <= cur ==> !FreeRun(bits, s, n)
  }

  // It has come to the end with `t` free pages behind it, and back to the first page and on to `cur`.
  // `met` says that a page in use has been met since.
  ghost predicate ScanningAgain(bits: seq<bool>, first: nat, cur: nat, n: nat, c: nat, t: nat, met: bool) {
    && Scanning(bits, first, |bits|, n, t) && cur <= first
    && if met then Scanning(bits, 0, cur, n, c) && c < cur && bits[cur - c - 1] && BlockedEarly(bits, cur, n, t)
       else c == t + cur < n && forall j :: 0 <= j < cur ==> !bits[j]
  }

  // Before the `t` pages could be made up to a run at the start, a page in use was met.
  ghost predicate BlockedEarly(bits: seq<bool>, cur: nat, n: nat, t: nat)
    requires cur <= |bits|
  {
    exists u :: 0 <= u < cur && bits[u] && u + t < n
  }

  lemma ScanFree(bits: seq<bool>, first: nat, cur: nat, n: nat, c: nat)
    requires Scanning(bits, first, cur, n, c) && cur < |bits| && !bits[cur] && c + 1 < n
    ensures Scanning(bits, first, cur + 1, n, c + 1)
  {
    forall s | first <= s && s + n <= cur + 1
      ensures !FreeRun(bits, s, n)
    {
      if s + n == cur + 1 {
        assert s <= cur - c - 1 < s + n;
      }
    }
  }

  lemma ScanUsed(bits: seq<bool>, first: nat, cur: nat, n: nat, c: nat)
    requires Scanning(bits, first, cur, n, c) && cur < |bits| && bits[cur]
    ensures Scanning(bits, first, cur + 1, n, 0)
  {
    forall s | first <= s && s + n <= cur + 1
      ensures !FreeRun(bits, s, n)
    {
      if s + n == cur + 1 {
        assert s <= cur < s + n;
      }
    }
  }

  // A run is complete: it is the first one.
  lemma ScanFound(bits: seq<bool>, first: nat, cur: nat, n: nat, c: nat)
    requires Scanning(bits, first, cur, n, c) && cur < |bits| && !bits[cur] && c + 1 == n
    ensures first + n <= cur + 1 && First(bits, first, n) == cur + 1 - n && FreeRun(bits, cur + 1 - n, n)
  {
    var s := cur + 1 - n;
    assert FreeRun(bits, s, n);
    FirstIs(bits, first, n, s);
  }

  lemma ScanNone(bits: seq<bool>, first: nat, n: nat, c: nat)
    requires Scanning(bits, first, |bits|, n, c)
    ensures First(bits, first, n) == |bits|
  {
    assert NoRun(bits, first, |bits|, n);
  }

  // The `t` free pages at the end are all that a run across it can use.
  lemma AtMost(bits: seq<bool>, first: nat, n: nat, t: nat, t': nat)
    requires Scanning(bits, first, |bits|, n, t) && t' + first <= |bits| && FreeRun(bits, |bits| - t', t')
    ensures t' <= t
  {
    if first + t != |bits| {
      assert bits[|bits| - t - 1];
    }
  }

  // One step after coming back to the first page.
  lemma AgainFree(bits: seq<bool>, first: nat, cur: nat, n: nat, c: nat, t: nat, met: bool)
    requires ScanningAgain(bits, first, cur, n, c, t, met) && cur < first && !bits[cur] && c + 1 < n
    ensures ScanningAgain(bits, first, cur + 1, n, c + 1, t, met)
  {
    if met {
      ScanFree(bits, 0, cur, n, c);
      var u :| 0 <= u < cur && bits[u] && u + t < n;
      assert 0 <= u < cur + 1 && bits[u] && u + t < n;
    }
  }

  lemma AgainUsed(bits: seq<bool>, first: nat, cur: nat, n: nat, c: nat, t: nat, met: bool)
    requires ScanningAgain(bits, first, cur, n, c, t, met) && cur < first && bits[cur]
    ensures ScanningAgain(bits, first, cur + 1, n, 0, t, true)
  {
    if met {
      ScanUsed(bits, 0, cur, n, c);
      var u :| 0 <= u < cur && bits[u] && u + t < n;
      assert 0 <= u < cur + 1 && bits[u] && u + t < n;
    } else {
      assert bits[cur] && cur + t < n;
      forall s: nat | s + n <= cur + 1
        ensures !FreeRun(bits, s, n)
      {
        assert s <= cur < s + n || s + n <= cur;
      }
    }
  }

  lemma NotAcross(bits: seq<bool>, first: nat, cur: nat, n: nat, c: nat, t: nat)
    requires ScanningAgain(bits, first, cur, n, c, t, true)
    ensures !Crosses(Bitmap(bits, first), n)
  {
    var u :| 0 <= u < cur && bits[u] && u + t < n;
    forall t': nat
      ensures !CrossesAt(Bitmap(bits, first), n, t')
    {
      if t' + first <= |bits| && FreeRun(bits, |bits| - t', t') {
        AtMost(bits, first, n, t, t');
        assert t' < n ==> 0 <= u < n - t';
      }
    }
  }

  // A run is complete after coming back: the first of all, or one across the end.
  lemma AgainFound(bits: seq<bool>, first: nat, cur: nat, n: nat, c: nat, t: nat, met: bool)
    requires ScanningAgain(bits, first, cur, n, c, t, met) && cur < first && !bits[cur] && c + 1 == n == BASE
    ensures cur + 1 < n ==> Crosses(Bitmap(bits, first), n) && !Servable(Bitmap(bits, first), n)
    ensures cur + 1 >= n ==> Start(Bitmap(bits, first), n) == cur + 1 - n && Servable(Bitmap(bits, first), n)
  {
    ScanNone(bits, first, n, t);
    if met {
      NotAcross(bits, first, cur, n, c, t);
      ScanFound(bits, 0, cur, n, c);
    } else if t > 0 {
      assert CrossesAt(Bitmap(bits, first), n, t);
      assert Crosses(Bitmap(bits, first), n);
    } else {
      NothingAcross(bits, first, n);
      assert FreeRun(bits, 0, n);
      FirstIs(bits, 0, n, 0);
    }
  }

  lemma NothingAcross(bits: seq<bool>, first: nat, n: nat)
    requires Scanning(bits, first, |bits|, n, 0)
    ensures !Crosses(Bitmap(bits, first), n)
  {
    if first < |bits| {
      assert bits[|bits| - 1];
    }
  }

  // All pages have been looked at.
  lemma AgainEnds(bits: seq<bool>, first: nat, n: nat, c: nat, t: nat, met: bool)
    requires ScanningAgain(bits, first, first, n, c, t, met) && n == BASE
    ensures CleanlyFails(Bitmap(bits, first), n)
  {
    ScanNone(bits, first, n, t);
    if met {
      NotAcross(bits, first, first, n, c, t);
    } else {
      TooShort(bits, first, n, t);
    }
    var s := First(bits, 0, n);
    assert s < |bits| ==> FreeRun(bits, s, n);
  }

  lemma TooShort(bits: seq<bool>, first: nat, n: nat, t: nat)
    requires Scanning(bits, first, |bits|, n, t) && t + first < n
    ensures !Crosses(Bitmap(bits, first), n)
    ensures First(bits, 0, n) + n > first
  {
    forall t': nat
      ensures !CrossesAt(Bitmap(bits, first), n, t')
    {
      if t < t' && t' + first <= |bits| {
        ShortEnd(bits, first, n, t, t');
      }
    }
  }

  lemma ShortEnd(bits: seq<bool>, first: nat, n: nat, t: nat, t': nat)
    requires Scanning(bits, first, |bits|, n, t) && t < t' && t' + first <= |bits|
    ensures !FreeRun(bits, |bits| - t', t')
  {
    assert bits[|bits| - t - 1];
  }

  lemma ScanBegins(bits: seq<bool>, first: nat, n: nat)
    requires first <= |bits| && n > 0
    ensures Scanning(bits, first, first, n, 0)
  {
  }

  lemma ScanReturns(bits: seq<bool>, first: nat, n: nat, t: nat)
    requires Scanning(bits, first, |bits|, n, t)
    ensures ScanningAgain(bits, first, 0, n, t, t, false)
  {
  }

  // The search as a whole: before the end of the bitmap or after it.
  ghost predicate Looking(bits: seq<bool>, first: nat, cur: nat, n: nat, c: nat, t: nat, again: bool, met: bool) {
    if again then n == BASE && cur <= first <= |bits| && ScanningAgain(bits, first, cur, n, c, t, met)
    else first <= cur <= |bits| && Scanning(bits, first, cur, n, c)
  }

  lemma FoundEither(bits: seq<bool>, first: nat, cur: nat, n: nat, t: nat, again: bool, met: bool)
    requires n > 0 && cur < |bits| && (again ==> cur < first) && Looking(bits, first, cur, n, n - 1, t, again, met) && !bits[cur]
    ensures first <= |bits|
    ensures cur + 1 < n ==> n == BASE && !Servable(Bitmap(bits, first), n) && !CleanlyFails(Bitmap(bits, first), n)
    ensures cur + 1 >= n ==> Servable(Bitmap(bits, first), n) && Start(Bitmap(bits, first), n) == cur + 1 - n
  {
    hide Scanning, ScanningAgain, Crosses, First;
    if again {
      AgainFound(bits, first, cur, n, n - 1, t, met);
    } else {
      ScanFound(bits, first, cur, n, n - 1);
    }
  }

  lemma StepEither(bits: seq<bool>, first: nat, cur: nat, n: nat, c: nat, t: nat, again: bool, met: bool)
    requires cur < |bits| && (again ==> cur < first) && Looking(bits, first, cur, n, c, t, again, met)
    requires bits[cur] || c + 1 < n
    ensures Looking(bits, first, cur + 1, n, if bits[cur] then 0 else c + 1, t, again, met || (again && bits[cur]))
  {
    hide Scanning, ScanningAgain;
    if again && bits[cur] {
      AgainUsed(bits, first, cur, n, c, t, met);
    } else if again {
      AgainFree(bits, first, cur, n, c, t, met);
    } else if bits[cur] {
      ScanUsed(bits, first, cur, n, c);
    } else {
      ScanFree(bits, first, cur, n, c);
    }
  }

  lemma EndEither(bits: seq<bool>, first: nat, cur: nat, n: nat, c: nat, t: nat, again: bool, met: bool)
    requires Looking(bits, first, cur, n, c, t, again, met) && n > 0
    requires if again then cur == first else first == 0 && cur == |bits|
    ensures first <= |bits| && CleanlyFails(Bitmap(bits, first), n)
  {
    hide Scanning, ScanningAgain, Crosses;
    if again {
      AgainEnds(bits, first, n, c, t, met);
    } else {
      ScanNone(bits, first, n, c);
    }
  }

  // ---------- the bitmap as a set of free pages ----------

  ghost function FreePages(bits: seq<bool>): set<nat> {
    set i: nat | i < |bits| && !bits[i]
  }

  // The free pages that searches still come to, and those they have passed.
  ghost function Ahead(bits: seq<bool>, cur: nat): set<nat> {
    set i: nat | i < |bits| && !bits[i] && cur <= i
  }

  ghost function Behind(bits: seq<bool>, cur: nat): set<nat> {
    set i: nat | i < |bits| && !bits[i] && i < cur
  }

  lemma FreeSplit(bits: seq<bool>, cur: nat)
    ensures FreePages(bits) == Behind(bits, cur) + Ahead(bits, cur) && Behind(bits, cur) !! Ahead(bits, cur)
  {
  }

  // Marking a run takes its pages from the free ones, or gives them back.
  lemma MarkedPages(bits: seq<bool>, s: nat, n: nat, b: bool)
    requires s + n <= |bits|
    ensures FreePages(Marked(bits, s, n, b))
            == if b then FreePages(bits) - Run(s, s + n) else FreePages(bits) + Run(s, s + n)
  {
  }

  // Taking one page passes no other free page.
  lemma TakeOne(b: Bitmap)
    requires BitmapOk(b)
    ensures Servable(b, 1) <==> Ahead(b.bits, b.cur) != {}
    ensures Servable(b, 1) ==>
              var s, b' := Start(b, 1), Taken(b, 1);
              && s in Ahead(b.bits, b.cur) && s in FreePages(b.bits)
              && FreePages(b'.bits) == FreePages(b.bits) - {s}
              && Ahead(b'.bits, b'.cur) == Ahead(b.bits, b.cur) - {s}
              && Behind(b'.bits, b'.cur) == Behind(b.bits, b.cur) && b'.cur > b.cur
  {
    ServableExactly(b, 1);
    var s := First(b.bits, b.cur, 1);
    forall i | b.cur <= i < s
      ensures b.bits[i]
    {
      assert !FreeRun(b.bits, i, 1);
    }
    if s == |b.bits| {
      assert Ahead(b.bits, b.cur) == {};
    } else {
      assert s in Ahead(b.bits, b.cur);
    }
  }

  // Taking a run takes its pages from the free ones.
  lemma TakeRun(b: Bitmap, n: nat)
    requires BitmapOk(b) && Servable(b, n)
    ensures var s, b' := Start(b, n), Taken(b, n);
            && s + n <= |b.bits| && Run(s, s + n) <= FreePages(b.bits)
            && FreePages(b'.bits) == FreePages(b.bits) - Run(s, s + n)
  {
    MarkedPages(b.bits, Start(b, n), n, true);
  }

  // The free pages are all there is to a bitmap.
  lemma BitmapDetermined(a: seq<bool>, b: seq<bool>)
    requires |a| == |b| && FreePages(a) == FreePages(b)
    ensures a == b
  {
    forall i | 0 <= i < |a|
      ensures a[i] == b[i]
    {
      assert a[i] <==> i !in FreePages(a);
      assert b[i] <==> i !in FreePages(b);
    }
  }

  // Five pages, of which all but the fourth are free.
  function FivePages(): seq<bool> {
    [false, false, false, true, false]
  }

  // A search for three pages takes the first three.
  lemma ThreeOfFive()
    ensures var b := Bitmap(FivePages(), 0);
            Servable(b, 3) && Start(b, 3) == 0 && Taken(b, 3) == Bitmap([true, true, true, true, false], 3)
  {
    assert FreeRun(FivePages(), 0, 3);
    FirstIs(FivePages(), 0, 3, 0);
    ServableExactly(Bitmap(FivePages(), 0), 3);
  }

  // The wrap is met although pages are free: when the three are free again, a search for two has passed
  // them and finds only a single one ahead.
  lemma WrapWithFreePages()
    ensures var b := Bitmap(FivePages(), 3);
            !Servable(b, 2) && b.cur != 0 && FreePages(b.bits) == {0, 1, 2, 4} && Servable(Bitmap(b.bits, 0), 2)
  {
    var bits := FivePages();
    assert bits[3] && |bits| == 5;
    assert FreeRun(bits, 0, 2);
    forall s | 3 <= s < 5
      ensures !FreeRun(bits, s, 2)
    {
      assert s == 3 || s + 2 > |bits|;
    }
    ServableExactly(Bitmap(bits, 3), 2);
    ServableExactly(Bitmap(bits, 0), 2);
  }

  // ---------- blocks of the heap ----------

  // A block: its pages not counting the first, its size, and its bytes.
  datatype Alloc = Alloc(pages: nat, size: nat, data: seq<byte>)

  function PagesFor(size: nat): nat {
    if size % PAGE_SIZE != 0 then size / PAGE_SIZE + 1 else size / PAGE_SIZE
  }

  function Zeros(n: nat): (r: seq<byte>)
    ensures |r| == n && forall i :: 0 <= i < n ==> r[i] == 0
  {
    seq(n, _ => 0)
  }

  function Zeroed(size: nat): Alloc {
    Alloc(PagesFor(size), size, Zeros(PagesFor(size) * PAGE_SIZE))
  }

  ghost predicate BlockOk(a: Alloc) {
    a.pages == PagesFor(a.size) && |a.data| == a.pages * PAGE_SIZE
  }

  // The block at page `p` holds the page before it, for its size, and its own pages.
  ghost function BlockPages(p: nat, a: Alloc): set<nat>
    requires 1 <= p
  {
    Run(p - 1, p + a.pages)
  }

  // The fewest pages of 4096 bytes that hold the size, and one more in front of the block.
  lemma BlockShape(p: nat, size: nat, x: nat)
    requires 1 <= p
    ensures size <= PagesFor(size) * 4096 < size + 4096
    ensures x in BlockPages(p, Zeroed(size)) <==> p - 1 <= x <= p - 1 + PagesFor(size)
    ensures Zeroed(size).size == size && |Zeroed(size).data| == PagesFor(size) * 4096
    ensures forall i :: 0 <= i < size ==> Zeroed(size).data[i] == 0
  {
  }

  lemma BlockRoom(a: Alloc)
    requires BlockOk(a)
    ensures a.size <= |a.data|
  {
  }

  lemma ZeroedIs(size: nat)
    ensures BlockOk(Zeroed(size)) && Zeroed(size).size == size && Zeroed(size).pages == PagesFor(size)
  {
  }

  // A new block with the first bytes of an old one.
  lemma CopyIs(block: Alloc, other: Alloc, n: nat)
    requires BlockOk(block) && BlockOk(other) && n <= block.size && n <= other.size
    ensures n <= |block.data| && n <= |other.data| && BlockOk(other.(data := block.data[..n] + other.data[n..]))
  {
    BlockRoom(block);
    BlockRoom(other);
  }

  lemma SamePages(m: nat, n: nat)
    ensures (m + PAGE_SIZE - 1) / PAGE_SIZE == (n + PAGE_SIZE - 1) / PAGE_SIZE <==> PagesFor(m) == PagesFor(n)
  {
  }
}

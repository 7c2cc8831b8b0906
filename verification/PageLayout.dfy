// How the tables lie in memory: page numbers and addresses, the bits of an entry, and the sizes that
// the parts of the memory system share.

module PageLayout {
  import KernelModel
  import Pmm
  import opened PageTables
  import opened SpaceModel

  // A table fills a page, the allocator and the tables mean the same pages, and both the bitmap's first
  // page and the size of a fork's pool are 16 MiB.
  lemma SizesAgree()
    ensures 8 * ENTRIES == PAGE == Pmm.PAGE_SIZE == 0x1000
    ensures Pmm.BASE * Pmm.PAGE_SIZE == 0x100_0000 && POOL * PAGE == 0x100_0000
    ensures USER_PAGES * PAGE == 0x8000_0000_0000
  {
  }

  // ---------- the value of a word ----------

  function Half(v: bv64): bv64 {
    v >> 1
  }

  function Bit(v: bv64): nat {
    if v & 1 == 1 then 1 else 0
  }

  // The number that the bits of a word stand for.
  function ValueOf(v: bv64): nat
    decreases v
  {
    if v == 0 then 0 else 2 * ValueOf(Half(v)) + Bit(v)
  }

  lemma Halves(v: bv64)
    ensures ValueOf(v) == 2 * ValueOf(Half(v)) + Bit(v)
  {
  }

  // The lowest three bits and the rest.
  function Low3(v: bv64): nat {
    Bit(v) + 2 * Bit(Half(v)) + 4 * Bit(Half(Half(v)))
  }

  function Shr3(v: bv64): bv64 {
    v >> 3
  }

  lemma Split3(v: bv64)
    ensures ValueOf(v) == 8 * ValueOf(Shr3(v)) + Low3(v)
  {
    hide ValueOf, Half, Bit, Shr3;
    Halves(v);
    Halves(Half(v));
    Halves(Half(Half(v)));
    ThreeHalves(v);
  }

  lemma ThreeHalves(v: bv64)
    ensures Half(Half(Half(v))) == Shr3(v)
  {
  }

  lemma Zero()
    ensures ValueOf(0) == 0
  {
  }

  function Shr9(v: bv64): bv64 {
    v >> 9
  }

  function And9(v: bv64): bv64 {
    v & 0x1ff
  }

  // A word is its low nine bits and the rest.
  lemma Split9(v: bv64)
    ensures ValueOf(v) == 512 * ValueOf(Shr9(v)) + ValueOf(And9(v))
  {
    hide ValueOf, Low3, Shr3, Shr9, And9;
    var u := And9(v);
    Split3(v);
    Split3(Shr3(v));
    Split3(Shr3(Shr3(v)));
    Split3(u);
    Split3(Shr3(u));
    Split3(Shr3(Shr3(u)));
    Shifts9(v);
    Low9(v);
    Zero();
  }

  lemma Shifts9(v: bv64)
    ensures Shr3(Shr3(Shr3(v))) == Shr9(v) && Shr3(Shr3(Shr3(And9(v)))) == 0
  {
  }

  lemma Low9(v: bv64)
    ensures Low3(And9(v)) == Low3(v) && Low3(Shr3(And9(v))) == Low3(Shr3(v))
    ensures Low3(Shr3(Shr3(And9(v)))) == Low3(Shr3(Shr3(v)))
  {
  }

  function Shr12(v: bv64): bv64 {
    v >> 12
  }

  function And12(v: bv64): bv64 {
    v & 0xfff
  }

  // A word is its low twelve bits and the rest.
  lemma Split12(v: bv64)
    ensures ValueOf(v) == 4096 * ValueOf(Shr12(v)) + ValueOf(And12(v))
  {
    hide ValueOf, Low3, Shr3, Shr9, And9, Shr12, And12;
    var u := And12(v);
    Split9(v);
    Split3(Shr9(v));
    Split9(u);
    Split3(Shr9(u));
    Shifts12(v);
    Zero();
  }

  lemma Shifts12(v: bv64)
    ensures Shr3(Shr9(v)) == Shr12(v) && Shr3(Shr9(And12(v))) == 0 && And9(And12(v)) == And9(v)
    ensures Low3(Shr9(And12(v))) == Low3(Shr9(v))
  {
  }

  lemma {:induction false} SmallValue(v: bv64)
    requires v < 0x200
    ensures ValueOf(v) == v as nat
    decreases v
  {
    hide Bit, Half;
    HalfOfSmall(v);
    if v != 0 {
      SmallValue(Half(v));
    }
  }

  lemma HalfOfSmall(v: bv64)
    requires v < 0x200
    ensures v as nat == (Half(v) as nat) * 2 + Bit(v)
    ensures Half(v) < 0x200 && (v != 0 ==> Half(v) < v) && (v == 0 ==> v as nat == 0)
  {
  }

  // Twelve bits are a number below 4096.
  lemma LowValue(v: bv64)
    ensures ValueOf(And12(v)) < 4096
  {
    hide ValueOf, Low3, Shr3, Shr9, And9, And12;
    var u := And12(v);
    Split9(u);
    Split3(Shr9(u));
    Shifts12(v);
    Zero();
    NineBits(u);
    SmallValue(And9(u));
    SmallWord(And9(u));
    ThreeBits(Shr9(u));
  }

  lemma NineBits(v: bv64)
    ensures And9(v) < 0x200
  {
  }

  lemma ThreeBits(v: bv64)
    ensures Low3(v) < 8
  {
  }

  // ---------- the mask of flags and the mask of the frame ----------

  function FrameBits(v: bv64): bv64 {
    v & 0xffff_ffff_ffff_f000
  }

  // The two masks cut a word into its remainder and the rest.
  lemma Masks(v: bv64)
    ensures ValueOf(v & 0xfff) == ValueOf(v) % 0x1000
    ensures ValueOf(v & 0xffff_ffff_ffff_f000) == ValueOf(v) - ValueOf(v) % 0x1000
  {
    assert v & 0xfff == And12(v) && v & 0xffff_ffff_ffff_f000 == FrameBits(v);
    MasksCut(v);
  }

  lemma MasksCut(v: bv64)
    ensures ValueOf(And12(v)) == ValueOf(v) % 0x1000 && ValueOf(FrameBits(v)) == ValueOf(v) - ValueOf(v) % 0x1000
  {
    hide ValueOf, Shr12, And12, FrameBits;
    Split12(v);
    Split12(FrameBits(v));
    MaskShifts(v);
    Zero();
    LowValue(v);
  }

  lemma MaskShifts(v: bv64)
    ensures Shr12(FrameBits(v)) == Shr12(v) && And12(FrameBits(v)) == 0
  {
  }

  // Frame address and flags, put together bit by bit, are their sum.
  lemma OrIsSum(address: bv64, flags: bv64)
    requires address & 0xfff == 0 && flags < 0x1000
    ensures ValueOf(address | flags) == ValueOf(address) + ValueOf(flags)
  {
    hide ValueOf, Shr12, And12;
    Split12(address);
    Split12(address | flags);
    OrShifts(address, flags);
    Zero();
  }

  lemma OrShifts(address: bv64, flags: bv64)
    requires address & 0xfff == 0 && flags < 0x1000
    ensures Shr12(address | flags) == Shr12(address) && And12(address | flags) == flags && And12(address) == 0
  {
  }

  // The entry that maps a frame with some flags, taken apart by the masks of the page walk: its low
  // twelve bits are the flags, the rest is the address of the frame, and bit 0 says that it is present.
  lemma EntryByMasks(e: bv64, frame: nat, flags: nat)
    requires flags < 0x1000 && ValueOf(e) == Word(frame, flags)
    ensures ValueOf(e & 0xfff) == flags && ValueOf(e & 0xffff_ffff_ffff_f000) == frame * 0x1000
    ensures Present(ValueOf(e)) <==> e & 1 == 1
    ensures FlagsOf(ValueOf(e)) == ValueOf(e & 0xfff) && FrameOf(ValueOf(e)) * 0x1000 == ValueOf(e & 0xffff_ffff_ffff_f000)
  {
    hide ValueOf;
    Masks(e);
    PresentBit(e);
  }

  lemma PresentBit(e: bv64)
    ensures Present(ValueOf(e)) <==> e & 1 == 1
  {
    hide ValueOf, Half;
    Halves(e);
  }

  // ---------- addresses and page numbers ----------

  // Four indices make up the page part of an address of the user's half.
  lemma IndexValues(v: bv64)
    requires v < 0x8000_0000_0000
    ensures ValueOf(Shr12(v))
            == ((ValueOf(Index4(v)) * 512 + ValueOf(Index3(v))) * 512 + ValueOf(Index2(v))) * 512 + ValueOf(Index1(v))
  {
    hide ValueOf, Index1, Index2, Index3, Index4, Shr12, Shr9, And9;
    Split9(Shr12(v));
    Split9(Shr9(Shr12(v)));
    Split9(Shr9(Shr9(Shr12(v))));
    IndexShifts(v);
  }

  lemma IndexShifts(v: bv64)
    requires v < 0x8000_0000_0000
    ensures And9(Shr12(v)) == Index1(v) && And9(Shr9(Shr12(v))) == Index2(v) && And9(Shr9(Shr9(Shr12(v)))) == Index3(v)
    ensures Shr9(Shr9(Shr9(Shr12(v)))) == Index4(v)
  {
  }

  // The page number of an address is what is left of it without its low twelve bits.
  lemma AddressIsNumber(v: bv64)
    requires v < 0x8000_0000_0000
    ensures PathOf(v)[0] < 256
    ensures NumberOf(PathOf(v)) * 0x1000 == ValueOf(v) - ValueOf(v & 0xfff) == ValueOf(v & 0xffff_ffff_ffff_f000)
  {
    Masks(v);
    LowIsAnd(v);
    NumberIs(v);
  }

  lemma LowIsAnd(v: bv64)
    ensures v & 0xfff == And12(v)
  {
  }

  lemma NumberIs(v: bv64)
    requires v < 0x8000_0000_0000
    ensures PathOf(v)[0] < 256 && NumberOf(PathOf(v)) * 0x1000 == ValueOf(v) - ValueOf(And12(v))
  {
    hide ValueOf, Index1, Index2, Index3, Index4, Shr12, And12;
    IndexValues(v);
    Split12(v);
    IndicesBelow(v);
    SmallValue(Index4(v));
    SmallValue(Index3(v));
    SmallValue(Index2(v));
    SmallValue(Index1(v));
    UserHalf(v);
  }

  lemma UserHalf(v: bv64)
    requires v < 0x8000_0000_0000
    ensures Index4(v) < 256 && Index4(v) as nat < 256
  {
  }

  // ---------- forks, by the bits of the entries ----------

  // Each page of the parent: the child maps it with the same low twelve bits, to a frame with the same
  // contents; and the child maps no other.
  lemma ForkByMasks(k: KernelModel.Kernel, k': KernelModel.Kernel, p: nat, c: nat, kernelRoot: nat, q: Path)
    requires KernelModel.Forked(k, k', p, c, kernelRoot) && IsPage(q, 256)
    ensures var w, w' := Leaf(k.mem, k.spaces[p].tabs, q), Leaf(k'.mem, k'.spaces[c].tabs, q);
            if w % 2 == 1 then
              && w' % 0x1000 == w % 0x1000 && w / 0x1000 < |k.mem| && w' / 0x1000 < |k'.mem|
              && k'.mem[w' / 0x1000] == k.mem[w / 0x1000]
            else w' == 0
  {
    hide Leaf, KernelModel.OthersSame, IsPage;
  }
}

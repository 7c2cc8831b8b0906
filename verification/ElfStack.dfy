/**
  * The initial user stack of root/src/kernel/proc/task.c: strings at the top, then
  * the auxiliary vector, the environment and argument pointers and the count.
  *
  * The stack is a byte array; its byte `x` is seen by the new thread at the address
  * `bottom + x`.  What the thread must find (section 3.4.1 of the System V AMD64
  * ABI) is stated by `AbiStack` without reference to how it was put there.
  */
module ElfStack {

  type Byte = b: int | 0 <= b < 256
  /** A C string without its terminating zero. */
  type Str = s: seq<Byte> | 0 !in s

  const STACK_SIZE: nat := 32768
  const PAGE_SIZE: nat := 4096
  const STACK_LOCATION_TOP: nat := 0x8000_0000_0000
  const MAX_THREADS: nat := 1024
  const WORD: nat := 0x1_0000_0000_0000_0000

  const AT_ENTRY: nat := 10
  const AT_PHDR: nat := 20
  const AT_PHENT: nat := 21
  const AT_PHNUM: nat := 22

  type Word = w: int | 0 <= w < WORD
  datatype Auxval = Auxval(entry: Word, phdr: Word, phent: Word, phnum: Word)

  // -------------------------------------------------------------- bytes and words

  function Put(m: seq<Byte>, at: nat, bs: seq<Byte>): (r: seq<Byte>)
    requires at + |bs| <= |m|
    ensures |r| == |m|
    ensures r[at..at + |bs|] == bs
    ensures forall k :: 0 <= k < |m| && !(at <= k < at + |bs|) ==> r[k] == m[k]
  {
    m[..at] + bs + m[at + |bs|..]
  }

  function Pow256(n: nat): (r: nat) ensures r > 0 { if n == 0 then 1 else 256 * Pow256(n - 1) }

  /** The `n` low bytes of `w`, lowest first. */
  function Digits(w: nat, n: nat): (bs: seq<Byte>)
    ensures |bs| == n
  {
    if n == 0 then [] else [w % 256] + Digits(w / 256, n - 1)
  }

  function Value(bs: seq<Byte>): (w: nat)
    ensures w < Pow256(|bs|)
  {
    if bs == [] then 0 else (var b: int := bs[0]; b + 256 * Value(bs[1..]))
  }

  lemma {:induction false} DigitsRoundTrip(w: nat, n: nat)
    requires w < Pow256(n)
    ensures Value(Digits(w, n)) == w
  {
    if n > 0 {
      DigitsRoundTrip(w / 256, n - 1);
      assert Digits(w, n)[1..] == Digits(w / 256, n - 1);
    }
  }

  lemma WordIsEightBytes()
    ensures Pow256(8) == WORD
  {
    assert Pow256(4) == 0x1_0000_0000;
    assert Pow256(6) == 0x1_0000_0000_0000;
  }

  /** The little-endian word at offset `at`. */
  function WordAt(m: seq<Byte>, at: int): (w: Word)
    requires 0 <= at <= |m| - 8
  {
    WordIsEightBytes();
    Value(m[at..at + 8])
  }

  function PutWord(m: seq<Byte>, at: nat, w: Word): (r: seq<Byte>)
    requires at + 8 <= |m|
    ensures |r| == |m|
    ensures WordAt(r, at) == w
    ensures forall k :: 0 <= k < |m| && !(at <= k < at + 8) ==> r[k] == m[k]
  {
    WordIsEightBytes();
    DigitsRoundTrip(w, 8);
    Put(m, at, Digits(w, 8))
  }

  /** Bytes `lo` up to `hi` are the same in both. */
  ghost predicate Same(m: seq<Byte>, n: seq<Byte>, lo: int, hi: int)
  {
    0 <= lo <= hi <= |m| == |n| && forall k :: lo <= k < hi ==> m[k] == n[k]
  }

  lemma SamePart(m: seq<Byte>, n: seq<Byte>, lo: int, hi: int, a: int, b: int)
    requires Same(m, n, lo, hi) && lo <= a <= b <= hi
    ensures m[a..b] == n[a..b]
  {
    assert |m[a..b]| == |n[a..b]|;
  }

  // -------------------------------------------------------------------- strings

  ghost predicate StringAt(m: seq<Byte>, at: int, s: Str)
  {
    0 <= at && at + |s| + 1 <= |m| && m[at..at + |s| + 1] == s + [0]
  }

  /** Bytes taken by strings with their zeros. */
  function Total(ss: seq<Str>): (n: nat)
  {
    if ss == [] then 0 else Total(ss[..|ss| - 1]) + |ss[|ss| - 1]| + 1
  }

  lemma {:induction false} TotalGrows(ss: seq<Str>, k: nat)
    requires k <= |ss|
    ensures Total(ss[..k]) <= Total(ss)
    decreases |ss| - k
  {
    if k < |ss| {
      TotalGrows(ss, k + 1);
      assert ss[..k + 1][..k] == ss[..k];
    } else {
      assert ss[..k] == ss;
    }
  }

  /** How far below the top string number `k` starts. */
  function Depth(ss: seq<Str>, k: nat): (n: nat)
    requires k < |ss|
    ensures n <= Total(ss)
  {
    TotalGrows(ss, k + 1);
    Total(ss[..k + 1])
  }

  /** The strings lie below `top`, the first highest. */
  ghost predicate StringsAt(m: seq<Byte>, top: int, ss: seq<Str>)
  {
    forall k :: 0 <= k < |ss| ==> StringAt(m, top - Depth(ss, k), ss[k])
  }

  // ----------------------------------------------------------------------- words

  ghost predicate WordsAt(m: seq<Byte>, at: int, ws: seq<Word>)
  {
    0 <= at && at + 8 * |ws| <= |m| && forall k :: 0 <= k < |ws| ==> WordAt(m, at + 8 * k) == ws[k]
  }

  /** Addresses of strings that lie below the address `sa`. */
  function Pointers(sa: int, ss: seq<Str>): (ps: seq<Word>)
    requires Total(ss) <= sa < WORD
    ensures |ps| == |ss|
    ensures forall k :: 0 <= k < |ss| ==> ps[k] == sa - Depth(ss, k)
  {
    seq(|ss|, k requires 0 <= k < |ss| => sa - Depth(ss, k))
  }

  lemma WordsKept(m: seq<Byte>, n: seq<Byte>, at: int, ws: seq<Word>)
    requires WordsAt(m, at, ws) && Same(m, n, at, at + 8 * |ws|)
    ensures WordsAt(n, at, ws)
  {
    forall k | 0 <= k < |ws| ensures WordAt(n, at + 8 * k) == ws[k] {
      SamePart(m, n, at, at + 8 * |ws|, at + 8 * k, at + 8 * k + 8);
    }
  }

  lemma WordsJoin(m: seq<Byte>, at: int, a: seq<Word>, b: seq<Word>)
    requires WordsAt(m, at, a) && WordsAt(m, at + 8 * |a|, b)
    ensures WordsAt(m, at, a + b)
  {
    forall k | 0 <= k < |a + b| ensures WordAt(m, at + 8 * k) == (a + b)[k] {
      if k >= |a| { assert WordAt(m, at + 8 * |a| + 8 * (k - |a|)) == b[k - |a|]; }
    }
  }

  lemma StringEnds(ss: seq<Str>, k: nat)
    requires k < |ss|
    ensures Total(ss[..k + 1]) == Total(ss[..k]) + |ss[k]| + 1 <= Total(ss)
  {
    TotalGrows(ss, k + 1);
    assert ss[..k + 1][..k] == ss[..k];
  }

  lemma StringKept(m: seq<Byte>, n: seq<Byte>, lo: int, hi: int, at: int, s: Str)
    requires StringAt(m, at, s) && Same(m, n, lo, hi) && lo <= at && at + |s| + 1 <= hi
    ensures StringAt(n, at, s)
  {
    SamePart(m, n, lo, hi, at, at + |s| + 1);
  }

  lemma StringsKept(m: seq<Byte>, n: seq<Byte>, top: int, ss: seq<Str>)
    requires StringsAt(m, top, ss) && Same(m, n, top - Total(ss), top)
    ensures StringsAt(n, top, ss)
  {
    forall k | 0 <= k < |ss| ensures StringAt(n, top - Depth(ss, k), ss[k]) {
      assert StringAt(m, top - Depth(ss, k), ss[k]);
      StringEnds(ss, k);
      StringKept(m, n, top - Total(ss), top, top - Depth(ss, k), ss[k]);
    }
  }

  // ------------------------------------------------------------------- the stores

  method StrCpy(stack: array<Byte>, at: nat, s: Str)
    requires at + |s| + 1 <= stack.Length
    modifies stack
    ensures stack[..] == Put(old(stack[..]), at, s + [0])
  {
    for i := 0 to |s|
      invariant forall k :: 0 <= k < i ==> stack[at + k] == s[k]
      invariant forall k :: 0 <= k < stack.Length && !(at <= k < at + i) ==> stack[k] == old(stack[k])
    {
      stack[at + i] := s[i];
    }
    stack[at + |s|] := 0;
    ghost var want := Put(old(stack[..]), at, s + [0]);
    forall k | 0 <= k < stack.Length ensures stack[k] == want[k] {
      if at <= k < at + |s| + 1 { assert want[k] == want[at..at + |s| + 1][k - at]; }
    }
  }

  method StoreWord(stack: array<Byte>, at: nat, w: Word)
    requires at + 8 <= stack.Length
    modifies stack
    ensures stack[..] == PutWord(old(stack[..]), at, w)
  {
    var rest: nat := w;
    ghost var d := Digits(w, 8);
    for i := 0 to 8
      invariant Digits(rest, 8 - i) == d[i..]
      invariant forall k :: 0 <= k < i ==> stack[at + k] == d[k]
      invariant forall k :: 0 <= k < stack.Length && !(at <= k < at + i) ==> stack[k] == old(stack[k])
    {
      assert d[i] == d[i..][0] && d[i + 1..] == d[i..][1..];
      stack[at + i] := rest % 256;
      rest := rest / 256;
    }
    ghost var want := Put(old(stack[..]), at, d);
    forall k | 0 <= k < stack.Length ensures stack[k] == want[k] {
      if at <= k < at + 8 { assert want[k] == want[at..at + 8][k - at]; }
    }
  }

  /** The loop that copies `ss` below `top`. */
  method PushStrings(stack: array<Byte>, top: nat, ss: seq<Str>) returns (strp: nat)
    requires Total(ss) <= top <= stack.Length
    modifies stack
    ensures strp == top - Total(ss) && StringsAt(stack[..], top, ss)
    ensures Same(old(stack[..]), stack[..], top, stack.Length)
  {
    hide Put;
    strp := top;
    for i := 0 to |ss|
      invariant strp == top - Total(ss[..i]) && Total(ss[..i]) <= top
      invariant StringsAt(stack[..], top, ss[..i])
      invariant Same(old(stack[..]), stack[..], top, stack.Length)
    {
      StringEnds(ss, i);
      ghost var before := stack[..];
      strp := strp - (|ss[i]| + 1);
      StrCpy(stack, strp, ss[i]);
      OneMoreString(before, stack[..], top, ss, i);
    }
    assert ss[..|ss|] == ss;
  }

  lemma OneMoreString(m: seq<Byte>, n: seq<Byte>, top: nat, ss: seq<Str>, i: nat)
    requires i < |ss| && StringsAt(m, top, ss[..i]) && Total(ss[..i + 1]) <= top <= |m|
    requires Total(ss[..i + 1]) == Total(ss[..i]) + |ss[i]| + 1
    requires n == Put(m, top - Total(ss[..i + 1]), ss[i] + [0])
    ensures StringsAt(n, top, ss[..i + 1])
    ensures Same(m, n, top, |m|)
  {
    StringsKept(m, n, top, ss[..i]);
    var now := ss[..i + 1];
    forall k | 0 <= k < |now| ensures StringAt(n, top - Depth(now, k), now[k]) {
      assert now[..k + 1] == ss[..k + 1];
      if k < i {
        assert ss[..i][..k + 1] == ss[..k + 1];
        assert StringAt(n, top - Depth(ss[..i], k), ss[..i][k]);
      }
    }
  }

  /** The loop that stores the addresses of `ss` in the words from `sp` on. */
  method StorePointers(stack: array<Byte>, sp: nat, start: nat, ss: seq<Str>) returns (sa: nat)
    requires sp + 8 * |ss| <= stack.Length && Total(ss) <= start < WORD
    modifies stack
    ensures sa == start - Total(ss) && WordsAt(stack[..], sp, Pointers(start, ss))
    ensures Same(old(stack[..]), stack[..], sp + 8 * |ss|, stack.Length)
  {
    hide PutWord, Pointers, WordAt;
    sa := start;
    ghost var ps := Pointers(start, ss);
    for i := 0 to |ss|
      invariant sa == start - Total(ss[..i]) && Total(ss[..i]) <= start
      invariant WordsAt(stack[..], sp, ps[..i])
      invariant Same(old(stack[..]), stack[..], sp + 8 * |ss|, stack.Length)
    {
      StringEnds(ss, i);
      ghost var before := stack[..];
      sa := sa - (|ss[i]| + 1);
      StoreWord(stack, sp + 8 * i, sa);
      OneMoreWord(before, stack[..], sp, ps, i);
    }
    assert ss[..|ss|] == ss && ps[..|ss|] == ps;
  }

  lemma OneMoreWord(m: seq<Byte>, n: seq<Byte>, at: nat, ws: seq<Word>, i: nat)
    requires i < |ws| && WordsAt(m, at, ws[..i]) && at + 8 * i + 8 <= |m| && n == PutWord(m, at + 8 * i, ws[i])
    ensures WordsAt(n, at, ws[..i + 1])
    ensures Same(m, n, at + 8 * i + 8, |m|)
  {
    WordsKept(m, n, at, ws[..i]);
    WordsJoin(n, at, ws[..i], [ws[i]]);
    assert ws[..i] + [ws[i]] == ws[..i + 1];
  }

  /** One word, on top of the words `above` that are already there. */
  method PushWord(stack: array<Byte>, sp: nat, w: Word, ghost above: seq<Word>) returns (sp': nat)
    requires sp >= 8 && WordsAt(stack[..], sp, above)
    modifies stack
    ensures sp' == sp - 8 && WordsAt(stack[..], sp', [w] + above)
    ensures Same(old(stack[..]), stack[..], sp, stack.Length)
  {
    hide PutWord, WordAt;
    sp' := sp - 8;
    StoreWord(stack, sp', w);
    WordsKept(old(stack[..]), stack[..], sp, above);
    WordsJoin(stack[..], sp', [w], above);
  }

  /** A tag and the word behind it. */
  method PushPair(stack: array<Byte>, sp: nat, tag: Word, w: Word, ghost above: seq<Word>) returns (sp': nat)
    requires sp >= 16 && WordsAt(stack[..], sp, above)
    modifies stack
    ensures sp' == sp - 16 && WordsAt(stack[..], sp', [tag, w] + above)
    ensures Same(old(stack[..]), stack[..], sp, stack.Length)
  {
    hide PutWord, WordAt;
    sp' := sp - 16;
    StoreWord(stack, sp', tag);
    ghost var mid := stack[..];
    StoreWord(stack, sp' + 8, w);
    OneMoreWord(mid, stack[..], sp', [tag, w], 1);
    WordsKept(old(stack[..]), stack[..], sp, above);
    WordsJoin(stack[..], sp', [tag, w], above);
  }

  function AuxWords(a: Auxval): (ws: seq<Word>)
    ensures |ws| == 10
  {
    [AT_PHNUM, a.phnum, AT_PHENT, a.phent, AT_PHDR, a.phdr, AT_ENTRY, a.entry, 0, 0]
  }

  method PushAux(stack: array<Byte>, start: nat, a: Auxval) returns (sp: nat)
    requires 80 <= start <= stack.Length
    modifies stack
    ensures sp == start - 80 && WordsAt(stack[..], sp, AuxWords(a))
    ensures Same(old(stack[..]), stack[..], start, stack.Length)
  {
    hide WordAt;
    sp := PushWord(stack, start, 0, []);
    sp := PushWord(stack, sp, 0, [0] + []);
    ghost var ws: seq<Word> := [0, 0];
    assert [0] + ([0] + []) == ws;
    sp := PushPair(stack, sp, AT_ENTRY, a.entry, ws);
    ws := [AT_ENTRY, a.entry] + ws;
    sp := PushPair(stack, sp, AT_PHDR, a.phdr, ws);
    ws := [AT_PHDR, a.phdr] + ws;
    sp := PushPair(stack, sp, AT_PHENT, a.phent, ws);
    ws := [AT_PHENT, a.phent] + ws;
    sp := PushPair(stack, sp, AT_PHNUM, a.phnum, ws);
    ws := [AT_PHNUM, a.phnum] + ws;
    assert ws == AuxWords(a);
  }

  /** The terminating zero and the pointers to `ss`. */
  method PushVector(stack: array<Byte>, start: nat, top: nat, ss: seq<Str>, ghost above: seq<Word>) returns (sp: nat, sa: nat)
    requires 8 * |ss| + 8 <= start && WordsAt(stack[..], start, above) && Total(ss) <= top < WORD
    modifies stack
    ensures sp == start - 8 - 8 * |ss| && sa == top - Total(ss)
    ensures WordsAt(stack[..], sp, Pointers(top, ss) + ([0] + above))
    ensures Same(old(stack[..]), stack[..], start, stack.Length)
  {
    hide WordAt, Pointers;
    sp := PushWord(stack, start, 0, above);
    sp := sp - 8 * |ss|;
    ghost var mid := stack[..];
    sa := StorePointers(stack, sp, top, ss);
    WordsKept(mid, stack[..], sp + 8 * |ss|, [0] + above);
    WordsJoin(stack[..], sp, Pointers(top, ss), [0] + above);
  }

  // ---------------------------------------------------------------- what is promised

  ghost predicate VectorAt(m: seq<Byte>, bottom: int, at: int, ss: seq<Str>)
    requires 0 <= at && at + 8 * |ss| + 8 <= |m|
  {
    && (forall i :: 0 <= i < |ss| ==> StringAt(m, WordAt(m, at + 8 * i) - bottom, ss[i]))
    && WordAt(m, at + 8 * |ss|) == 0
  }

  /** The stack as a program finds it at `rsp`. */
  ghost predicate AbiStack(m: seq<Byte>, bottom: int, rsp: int, argv: seq<Str>, envp: seq<Str>, aux: Auxval)
  {
    var at := rsp - bottom;
    && rsp % 16 == 0
    && 0 <= at && at + 8 * (|argv| + |envp| + 13) <= |m|
    && WordAt(m, at) == |argv|
    && VectorAt(m, bottom, at + 8, argv)
    && VectorAt(m, bottom, at + 16 + 8 * |argv|, envp)
    && WordsAt(m, at + 24 + 8 * |argv| + 8 * |envp|, AuxWords(aux))
  }

  /**
    * Word by word: the count, the pointers, a zero behind each vector, and then the
    * auxiliary vector, which begins with the number of program headers (tag 22),
    * their size (21), their address (20) and the entry point (10), and ends with zeros.
    */
  lemma WordsOfTheStack(m: seq<Byte>, bottom: int, rsp: int, argv: seq<Str>, envp: seq<Str>, aux: Auxval)
    requires AbiStack(m, bottom, rsp, argv, envp, aux)
    ensures var at := rsp - bottom;
      var av := at + 8 * (|argv| + |envp| + 3);
      && 0 <= at && av + 80 <= |m| && WordAt(m, at) == |argv|
      && WordAt(m, at + 8 + 8 * |argv|) == 0 && WordAt(m, at + 16 + 8 * |argv| + 8 * |envp|) == 0
      && WordAt(m, av) == 22 && WordAt(m, av + 8) == aux.phnum
      && WordAt(m, av + 16) == 21 && WordAt(m, av + 24) == aux.phent
      && WordAt(m, av + 32) == 20 && WordAt(m, av + 40) == aux.phdr
      && WordAt(m, av + 48) == 10 && WordAt(m, av + 56) == aux.entry
      && WordAt(m, av + 64) == 0 && WordAt(m, av + 72) == 0
  {
    hide WordAt;
    TenWords(m, rsp - bottom + 24 + 8 * |argv| + 8 * |envp|, AuxWords(aux));
  }

  lemma TenWords(m: seq<Byte>, at: int, ws: seq<Word>)
    requires WordsAt(m, at, ws) && |ws| == 10
    ensures 0 <= at && at + 80 <= |m|
    ensures WordAt(m, at) == ws[0] && WordAt(m, at + 8) == ws[1] && WordAt(m, at + 16) == ws[2]
    ensures WordAt(m, at + 24) == ws[3] && WordAt(m, at + 32) == ws[4] && WordAt(m, at + 40) == ws[5]
    ensures WordAt(m, at + 48) == ws[6] && WordAt(m, at + 56) == ws[7] && WordAt(m, at + 64) == ws[8]
    ensures WordAt(m, at + 72) == ws[9]
  {
    hide WordAt;
    assert WordAt(m, at + 8 * 0) == ws[0] && WordAt(m, at + 8 * 1) == ws[1] && WordAt(m, at + 8 * 2) == ws[2];
    assert WordAt(m, at + 8 * 3) == ws[3] && WordAt(m, at + 8 * 4) == ws[4] && WordAt(m, at + 8 * 5) == ws[5];
    assert WordAt(m, at + 8 * 6) == ws[6] && WordAt(m, at + 8 * 7) == ws[7] && WordAt(m, at + 8 * 8) == ws[8];
    assert WordAt(m, at + 8 * 9) == ws[9];
  }

  /** Every argument and every variable is read as it was given, through its pointer, up to its zero. */
  lemma StringsOfTheStack(m: seq<Byte>, bottom: int, rsp: int, argv: seq<Str>, envp: seq<Str>, aux: Auxval, i: nat, k: nat)
    requires AbiStack(m, bottom, rsp, argv, envp, aux)
    ensures i < |argv| && k <= |argv[i]| ==>
      var p := rsp - bottom + 8 + 8 * i;
      && 0 <= p && p + 8 <= |m| && 0 <= WordAt(m, p) - bottom && WordAt(m, p) - bottom + k < |m|
      && m[WordAt(m, p) - bottom + k] == if k < |argv[i]| then argv[i][k] else 0
    ensures i < |envp| && k <= |envp[i]| ==>
      var p := rsp - bottom + 16 + 8 * |argv| + 8 * i;
      && 0 <= p && p + 8 <= |m| && 0 <= WordAt(m, p) - bottom && WordAt(m, p) - bottom + k < |m|
      && m[WordAt(m, p) - bottom + k] == if k < |envp[i]| then envp[i][k] else 0
  {
    hide WordAt;
    var at := rsp - bottom;
    if i < |argv| && k <= |argv[i]| {
      StringByte(m, WordAt(m, at + 8 + 8 * i) - bottom, argv[i], k);
    }
    if i < |envp| && k <= |envp[i]| {
      StringByte(m, WordAt(m, at + 16 + 8 * |argv| + 8 * i) - bottom, envp[i], k);
    }
  }

  lemma StringByte(m: seq<Byte>, at: int, s: Str, k: nat)
    requires StringAt(m, at, s) && k <= |s|
    ensures 0 <= at && at + k < |m| && m[at + k] == if k < |s| then s[k] else 0
  {
    assert m[at..at + |s| + 1][k] == m[at + k] && (s + [0])[k] == if k < |s| then s[k] else 0;
  }

  /** A word is the sum of its eight bytes, the lowest first. */
  lemma WordBytes(m: seq<Byte>, at: int)
    requires 0 <= at <= |m| - 8
    ensures var b: seq<int> := m;
      WordAt(m, at)
      == b[at] + 256 * (b[at + 1] + 256 * (b[at + 2] + 256 * (b[at + 3] + 256 *
         (b[at + 4] + 256 * (b[at + 5] + 256 * (b[at + 6] + 256 * b[at + 7]))))))
  {
    hide Value;
    var hi := at + 8;
    FirstByte(m, at, hi);
    FirstByte(m, at + 1, hi);
    FirstByte(m, at + 2, hi);
    FirstByte(m, at + 3, hi);
    FirstByte(m, at + 4, hi);
    FirstByte(m, at + 5, hi);
    FirstByte(m, at + 6, hi);
    FirstByte(m, at + 7, hi);
    FirstByte(m, hi, hi);
  }

  lemma FirstByte(m: seq<Byte>, at: int, hi: int)
    requires 0 <= at <= hi <= |m|
    ensures var b: seq<int> := m;
      Value(m[at..hi]) == if at == hi then 0 else b[at] + 256 * Value(m[at + 1..hi])
  {
    if at < hi {
      assert m[at..hi][1..] == m[at + 1..hi];
    }
  }

  /** Where the strings begin, before alignment. */
  function StringBase(argv: seq<Str>, envp: seq<Str>): (n: int) { STACK_SIZE - Total(envp) - Total(argv) }

  /** Words from the lowest one to the aligned base of the strings. */
  function WordCount(argv: seq<Str>, envp: seq<Str>): (n: nat)
  {
    |argv| + |envp| + 13 + (|argv| + |envp| + 1) % 2
  }

  /** Everything fits into the stack; the source does not look. */
  predicate Fits(argv: seq<Str>, envp: seq<Str>)
  {
    var base := StringBase(argv, envp);
    base >= 0 && 8 * WordCount(argv, envp) <= base - base % 16
  }

  function Bottom(tid: nat): (b: int)
  {
    STACK_LOCATION_TOP - (STACK_SIZE + PAGE_SIZE) * (tid + 1) + PAGE_SIZE
  }

  /** The stack of the first thread ends at 0x8000_0000_0000; each further one lies 36 KiB lower. */
  lemma BottomOf(tid: nat)
    ensures Bottom(0) == 0x7fff_ffff_8000 && Bottom(tid + 1) == Bottom(tid) - 0x9000
  {
  }

  lemma BottomAligned(tid: nat)
    requires tid < MAX_THREADS
    ensures Bottom(tid) % 16 == 0 && 0 < Bottom(tid) && Bottom(tid) + STACK_SIZE < WORD
  {
    assert Bottom(tid) == 16 * (0x800_0000_0000 - 2304 * (tid + 1) + 256);
  }

  /** All words of the stack, lowest first. */
  ghost function Image(bottom: int, argv: seq<Str>, envp: seq<Str>, aux: Auxval): (ws: seq<Word>)
    requires 0 < bottom && bottom + STACK_SIZE < WORD && Total(argv) + Total(envp) <= STACK_SIZE && |argv| < WORD
  {
    var sa := bottom + STACK_SIZE;
    [|argv|] + (Pointers(sa - Total(envp), argv) + ([0] + (Pointers(sa, envp) + ([0] + AuxWords(aux)))))
  }

  lemma WordsSplit(m: seq<Byte>, at: int, a: seq<Word>, b: seq<Word>)
    requires WordsAt(m, at, a + b)
    ensures WordsAt(m, at, a) && WordsAt(m, at + 8 * |a|, b)
  {
    forall k | 0 <= k < |a| ensures WordAt(m, at + 8 * k) == a[k] { assert (a + b)[k] == a[k]; }
    forall k | 0 <= k < |b| ensures WordAt(m, at + 8 * |a| + 8 * k) == b[k] {
      assert WordAt(m, at + 8 * (|a| + k)) == (a + b)[|a| + k];
    }
  }

  lemma VectorFromPointers(m: seq<Byte>, bottom: int, at: int, top: int, ss: seq<Str>, rest: seq<Word>)
    requires Total(ss) <= bottom + top < WORD && StringsAt(m, top, ss)
    requires WordsAt(m, at, Pointers(bottom + top, ss) + ([0] + rest))
    ensures at + 8 * |ss| + 8 <= |m| && VectorAt(m, bottom, at, ss)
    ensures WordsAt(m, at + 8 * |ss| + 8, rest)
  {
    hide WordAt, Pointers, Total, Depth, StringAt;
    var ps := Pointers(bottom + top, ss);
    WordsSplit(m, at, ps, [0] + rest);
    WordsSplit(m, at + 8 * |ps|, [0], rest);
    assert WordAt(m, at + 8 * |ps| + 8 * 0) == [0][0];
    forall i | 0 <= i < |ss| ensures StringAt(m, WordAt(m, at + 8 * i) - bottom, ss[i]) {
      assert WordAt(m, at + 8 * i) == ps[i];
      assert StringAt(m, top - Depth(ss, i), ss[i]);
    }
  }

  /** The image with the strings above it is what the ABI asks for. */
  lemma ImageIsAbi(m: seq<Byte>, bottom: int, at: int, argv: seq<Str>, envp: seq<Str>, aux: Auxval)
    requires 0 < bottom && bottom + STACK_SIZE < WORD && Total(argv) + Total(envp) <= STACK_SIZE && |argv| < WORD
    requires (bottom + at) % 16 == 0 && WordsAt(m, at, Image(bottom, argv, envp, aux))
    requires StringsAt(m, STACK_SIZE, envp) && StringsAt(m, STACK_SIZE - Total(envp), argv)
    ensures AbiStack(m, bottom, bottom + at, argv, envp, aux)
  {
    hide WordAt, Pointers, StringsAt, VectorAt, WordsAt, Total, AuxWords, AbiStack;
    var sa := bottom + STACK_SIZE;
    var ps := Pointers(sa, envp) + ([0] + AuxWords(aux));
    ImageHead(m, bottom, at, STACK_SIZE - Total(envp), argv, ps);
    ImageTail(m, bottom, at + 16 + 8 * |argv|, envp, aux);
    AbiFromParts(m, bottom, at, argv, envp, aux);
  }

  lemma AbiFromParts(m: seq<Byte>, bottom: int, at: int, argv: seq<Str>, envp: seq<Str>, aux: Auxval)
    requires (bottom + at) % 16 == 0 && 0 <= at && at + 8 * |argv| + 16 <= |m|
    requires WordAt(m, at) == |argv| && VectorAt(m, bottom, at + 8, argv)
    requires at + 16 + 8 * |argv| + 8 * |envp| + 88 <= |m| && VectorAt(m, bottom, at + 16 + 8 * |argv|, envp)
    requires WordsAt(m, at + 16 + 8 * |argv| + 8 * |envp| + 8, AuxWords(aux))
    ensures AbiStack(m, bottom, bottom + at, argv, envp, aux)
  {
    hide WordAt, VectorAt, WordsAt, AuxWords;
    assert bottom + at - bottom == at;
    assert at + 16 + 8 * |argv| + 8 * |envp| + 8 == at + 24 + 8 * |argv| + 8 * |envp|;
  }

  lemma ImageHead(m: seq<Byte>, bottom: int, at: int, top: int, argv: seq<Str>, rest: seq<Word>)
    requires Total(argv) <= bottom + top < WORD && |argv| < WORD && StringsAt(m, top, argv)
    requires WordsAt(m, at, [|argv|] + (Pointers(bottom + top, argv) + ([0] + rest)))
    ensures 0 <= at && at + 8 * |argv| + 16 <= |m|
    ensures WordAt(m, at) == |argv| && VectorAt(m, bottom, at + 8, argv)
    ensures WordsAt(m, at + 8 * |argv| + 16, rest)
  {
    hide WordAt, Pointers, StringsAt, VectorAt, WordsAt, Total;
    WordsSplit(m, at, [|argv|], Pointers(bottom + top, argv) + ([0] + rest));
    FirstWord(m, at, |argv|);
    VectorFromPointers(m, bottom, at + 8, top, argv, rest);
  }

  lemma ImageTail(m: seq<Byte>, bottom: int, at: int, envp: seq<Str>, aux: Auxval)
    requires 0 <= at && Total(envp) <= bottom + STACK_SIZE < WORD && StringsAt(m, STACK_SIZE, envp)
    requires WordsAt(m, at, Pointers(bottom + STACK_SIZE, envp) + ([0] + AuxWords(aux)))
    ensures at + 8 * |envp| + 88 <= |m| && VectorAt(m, bottom, at, envp)
    ensures WordsAt(m, at + 8 * |envp| + 8, AuxWords(aux))
  {
    hide WordAt, Pointers, StringsAt, VectorAt, WordsAt, Total, AuxWords;
    VectorFromPointers(m, bottom, at, STACK_SIZE, envp, AuxWords(aux));
    WordsFit(m, at + 8 + 8 * |envp|, AuxWords(aux));
  }

  lemma FirstWord(m: seq<Byte>, at: int, w: Word)
    requires WordsAt(m, at, [w])
    ensures 0 <= at && at + 8 <= |m| && WordAt(m, at) == w
  {
    assert WordAt(m, at + 8 * 0) == [w][0];
  }

  lemma WordsFit(m: seq<Byte>, at: int, ws: seq<Word>)
    requires WordsAt(m, at, ws)
    ensures 0 <= at && at + 8 * |ws| <= |m|
  { }

  /** From the aligned base of the strings down to the argument count. */
  method BuildWords(stack: array<Byte>, strp: nat, bottom: int, argv: seq<Str>, envp: seq<Str>, aux: Auxval) returns (sp: nat)
    requires 0 < bottom && bottom + STACK_SIZE < WORD && Total(argv) + Total(envp) <= STACK_SIZE && |argv| < WORD
    requires 8 * WordCount(argv, envp) <= strp - strp % 16 && strp <= stack.Length
    modifies stack
    ensures sp == strp - strp % 16 - 8 * WordCount(argv, envp)
    ensures WordsAt(stack[..], sp, Image(bottom, argv, envp, aux))
    ensures Same(old(stack[..]), stack[..], strp, stack.Length)
  {
    hide WordAt, Pointers, WordsAt, Total, AuxWords;
    var nenv, nargs := |envp|, |argv|;
    sp := strp - strp % 16;
    if (nargs + nenv + 1) % 2 == 1 { sp := sp - 8; }
    sp := PushAux(stack, sp, aux);
    ghost var ws := AuxWords(aux);
    var sa;
    sp, sa := PushVector(stack, sp, bottom + STACK_SIZE, envp, ws);
    ws := Pointers(bottom + STACK_SIZE, envp) + ([0] + ws);
    ghost var sa' := sa;
    sp, sa := PushVector(stack, sp, sa, argv, ws);
    ws := Pointers(sa', argv) + ([0] + ws);
    sp := PushWord(stack, sp, nargs, ws);
  }

  lemma CountFits(argv: seq<Str>, envp: seq<Str>, tid: nat)
    requires Fits(argv, envp) && tid < MAX_THREADS
    ensures Total(argv) + Total(envp) <= STACK_SIZE && |argv| < WORD
    ensures (Bottom(tid) + StringBase(argv, envp) - StringBase(argv, envp) % 16 - 8 * WordCount(argv, envp)) % 16 == 0
  {
    hide Total, Bottom;
    BottomAligned(tid);
    EvenCount(|argv| + |envp|);
    Aligned(Bottom(tid), StringBase(argv, envp), WordCount(argv, envp));
  }

  lemma EvenCount(n: nat)
    ensures (n + 13 + (n + 1) % 2) % 2 == 0
  { }

  lemma Aligned(bottom: int, b: int, words: int)
    requires bottom % 16 == 0 && words % 2 == 0
    ensures (bottom + b - b % 16 - 8 * words) % 16 == 0
  {
    var a, c, d := bottom / 16, b / 16, words / 2;
    assert bottom + b - b % 16 - 8 * words == 16 * (a + c - d);
  }

  method BuildStack(stack: array<Byte>, tid: nat, argv: seq<Str>, envp: seq<Str>, aux: Auxval) returns (rsp: int)
    requires stack.Length == STACK_SIZE && tid < MAX_THREADS && Fits(argv, envp)
    modifies stack
    ensures AbiStack(stack[..], Bottom(tid), rsp, argv, envp, aux)
  {
    hide WordAt, Pointers, StringsAt, VectorAt, AbiStack, WordsAt, Total, Image, WordCount, Bottom;
    BottomAligned(tid);
    CountFits(argv, envp, tid);
    var bottom := Bottom(tid);
    var strp := PushStrings(stack, STACK_SIZE, envp);
    ghost var m1 := stack[..];
    strp := PushStrings(stack, strp, argv);
    ghost var m2 := stack[..];
    StringsKept(m1, m2, STACK_SIZE, envp);
    var sp := BuildWords(stack, strp, bottom, argv, envp, aux);
    StringsKept(m2, stack[..], STACK_SIZE, envp);
    StringsKept(m2, stack[..], STACK_SIZE - Total(envp), argv);
    ImageIsAbi(stack[..], bottom, sp, argv, envp, aux);
    rsp := bottom + STACK_SIZE - (STACK_SIZE - sp);
  }
}

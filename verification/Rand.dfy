/**
  * The random number generator of root/src/kernel/lib/rand.c: MT19937, with its
  * state of 624 words replaced in place whenever it has been used up.
  */
module Rand {

  const N: nat := 624
  const M: nat := 397
  const MATRIX_A: bv32 := 0x9908b0df
  const MSB: bv32 := 0x8000_0000
  const LSBS: bv32 := 0x7fff_ffff

  // ------------------------------------------------------------ the recurrence

  function Init(x: bv32, i: nat): (r: bv32)
    requires i < N
  {
    1812433253 * (x ^ (x >> 30)) + i as bv32
  }

  function Twist(far: bv32, a: bv32, b: bv32): (r: bv32)
  {
    var y := (a & MSB) | (b & LSBS);
    far ^ (y >> 1) ^ (if y & 1 == 0 then 0 else MATRIX_A)
  }

  /** The k-th word of the sequence that a seed starts (section 26.5.3.2 of ISO/IEC 14882:2011). */
  function Term(seed: bv32, k: nat): (x: bv32)
  {
    if k == 0 then seed
    else if k < N then Init(Term(seed, k - 1), k)
    else Twist(Term(seed, k - N + M), Term(seed, k - N), Term(seed, k - N + 1))
  }

  /** From word 624 on, each word comes from the words 624, 623 and 227 places before it. */
  lemma Recurrence(seed: bv32, k: nat)
    ensures var y := (Term(seed, k) & 0x8000_0000) | (Term(seed, k + 1) & 0x7fff_ffff);
            Term(seed, k + 624) == Term(seed, k + 397) ^ (y >> 1) ^ (if y & 1 == 1 then 0x9908_b0df else 0)
  {
    hide Term;
    TermBeyond(seed, k);
    OddOrEven((Term(seed, k) & 0x8000_0000) | (Term(seed, k + 1) & 0x7fff_ffff));
  }

  lemma TermBeyond(seed: bv32, k: nat)
    ensures Term(seed, k + 624) == Twist(Term(seed, k + 397), Term(seed, k), Term(seed, k + 1))
  {
    hide Twist;
  }

  lemma OddOrEven(y: bv32) ensures y & 1 == 0 || y & 1 == 1 { }

  /** The first words behind the default seed of the standard, 5489. */
  lemma FirstWords()
    ensures Term(5489, 0) == 5489 && Term(5489, 1) == 1301868182 && Term(5489, 2) == 2938499221
    ensures Term(5489, 3) == 2950281878 && Term(5489, 10) == 2066767472
  { }

  /** With word 397 of that seed, its first output is the known one. */
  lemma FirstOutput()
    requires Term(5489, 397) == 3183906156
    ensures Temper(Term(5489, 624)) == 3499211612
  {
    hide Term, Temper, Twist;
    FirstWords();
    TermBeyond(5489, 0);
    KnownTwist();
    KnownTempering();
  }

  lemma KnownTwist() ensures Twist(3183906156, 5489, 1301868182) == 2601187879 { }
  lemma KnownTempering() ensures Temper(2601187879) == 3499211612 { }

  // -------------------------------------------------------------- the tempering

  function Temper1(x: bv32): (r: bv32) { x ^ (x >> 11) }
  function Temper2(x: bv32): (r: bv32) { x ^ ((x << 7) & 0x9d2c5680) }
  function Temper3(x: bv32): (r: bv32) { x ^ ((x << 15) & 0xefc60000) }
  function Temper4(x: bv32): (r: bv32) { x ^ (x >> 18) }

  function Temper(x: bv32): (r: bv32) { Temper4(Temper3(Temper2(Temper1(x)))) }

  function Untemper1(x: bv32): (r: bv32) { x ^ (x >> 11) ^ (x >> 22) }
  function Untemper2(x: bv32): (r: bv32)
  {
    x ^ ((x << 7) & 0x9d2c5680) ^ ((x << 14) & (0x9d2c5680 & (0x9d2c5680 << 7)))
    ^ ((x << 21) & (0x9d2c5680 & (0x9d2c5680 << 7) & (0x9d2c5680 << 14)))
    ^ ((x << 28) & (0x9d2c5680 & (0x9d2c5680 << 7) & (0x9d2c5680 << 14) & (0x9d2c5680 << 21)))
  }
  function Untemper(x: bv32): (r: bv32) { Untemper1(Untemper2(Temper3(Temper4(x)))) }

  lemma Unfold1(x: bv32) ensures Temper1(x) == x ^ (x >> 11) { }
  lemma Unfold1'(x: bv32) ensures Untemper1(x) == x ^ (x >> 11) ^ (x >> 22) { }
  lemma Undo1(x: bv32) ensures Untemper1(x ^ (x >> 11)) == x { }
  lemma Undo1'(x: bv32) ensures Temper1(x ^ (x >> 11) ^ (x >> 22)) == x { }
  lemma Unfold2(x: bv32) ensures Temper2(x) == x ^ ((x << 7) & 0x9d2c5680) { }
  lemma Unfold2'(x: bv32)
    ensures Untemper2(x) ==
      x ^ ((x << 7) & 0x9d2c5680) ^ ((x << 14) & (0x9d2c5680 & (0x9d2c5680 << 7)))
      ^ ((x << 21) & (0x9d2c5680 & (0x9d2c5680 << 7) & (0x9d2c5680 << 14)))
      ^ ((x << 28) & (0x9d2c5680 & (0x9d2c5680 << 7) & (0x9d2c5680 << 14) & (0x9d2c5680 << 21)))
  { }
  lemma Undo2(x: bv32) ensures Untemper2(x ^ ((x << 7) & 0x9d2c5680)) == x { }
  lemma Undo2'(x: bv32)
    ensures Temper2(
      x ^ ((x << 7) & 0x9d2c5680) ^ ((x << 14) & (0x9d2c5680 & (0x9d2c5680 << 7)))
      ^ ((x << 21) & (0x9d2c5680 & (0x9d2c5680 << 7) & (0x9d2c5680 << 14)))
      ^ ((x << 28) & (0x9d2c5680 & (0x9d2c5680 << 7) & (0x9d2c5680 << 14) & (0x9d2c5680 << 21)))) == x
  { }
  lemma Unfold3(x: bv32) ensures Temper3(x) == x ^ ((x << 15) & 0xefc60000) { }
  lemma Undo3(x: bv32) ensures Temper3(x ^ ((x << 15) & 0xefc60000)) == x { }
  lemma Unfold4(x: bv32) ensures Temper4(x) == x ^ (x >> 18) { }
  lemma Undo4(x: bv32) ensures Temper4(x ^ (x >> 18)) == x { }

  lemma Stage1(x: bv32)
    ensures Untemper1(Temper1(x)) == x && Temper1(Untemper1(x)) == x
  {
    hide Temper1, Untemper1;
    Unfold1(x);
    Undo1(x);
    Unfold1'(x);
    Undo1'(x);
  }

  lemma Stage2(x: bv32)
    ensures Untemper2(Temper2(x)) == x && Temper2(Untemper2(x)) == x
  {
    hide Temper2, Untemper2;
    Unfold2(x);
    Undo2(x);
    Unfold2'(x);
    Undo2'(x);
  }

  lemma Stage3(x: bv32)
    ensures Temper3(Temper3(x)) == x
  {
    hide Temper3;
    Unfold3(x);
    Undo3(x);
  }

  lemma Stage4(x: bv32)
    ensures Temper4(Temper4(x)) == x
  {
    hide Temper4;
    Unfold4(x);
    Undo4(x);
  }

  /** Tempering loses nothing and reaches every word. */
  lemma TemperIsBijection(x: bv32)
    ensures Untemper(Temper(x)) == x && Temper(Untemper(x)) == x
  {
    hide Temper1, Temper2, Temper3, Temper4, Untemper1, Untemper2;
    Stage1(x);
    Stage2(Temper1(x));
    Stage3(Temper2(Temper1(x)));
    Stage4(Temper3(Temper2(Temper1(x))));
    Stage4(x);
    Stage3(Temper4(x));
    Stage2(Temper3(Temper4(x)));
    Stage1(Untemper2(Temper3(Temper4(x))));
  }

  // -------------------------------------------------------------- the generator

  class Generator {
    const status: array<bv32>
    var ctr: nat
    ghost var seed: bv32
    ghost var base: nat            // status[i] is term number base + i

    ghost predicate Valid()
      reads this, status
    {
      && status.Length == N
      && ctr <= N <= base + ctr
      && forall i :: 0 <= i < N ==> status[i] == Term(seed, base + i)
    }

    /** How many words have been drawn since the seed was set. */
    ghost function Drawn(): (k: nat)
      requires Valid()
      reads this, status
    {
      base + ctr - N
    }

    constructor (s: bv32)
      ensures Valid() && fresh(status) && seed == s && Drawn() == 0
    {
      status := new bv32[N];
      ctr := 0;
      new;
      Srand(s);
    }

    method Srand(s: bv32)
      requires status.Length == N
      modifies this, status
      ensures Valid() && seed == s && Drawn() == 0
    {
      hide Init, Twist;
      seed, base := s, 0;
      status[0] := s;
      ctr := 1;
      while ctr < N
        invariant 1 <= ctr <= N && seed == s && base == 0
        invariant forall i :: 0 <= i < ctr ==> status[i] == Term(s, i)
      {
        status[ctr] := Init(status[ctr - 1], ctr);
        ctr := ctr + 1;
      }
    }

    /** The refill in three parts: what lies ahead is still old, what lies behind is already new. */
    method Refill()
      requires Valid() && ctr == N
      modifies this, status
      ensures Valid() && seed == old(seed) && ctr == 0 && Drawn() == old(Drawn())
    {
      hide Twist, Term;
      var kk := 0;
      while kk < N - M
        invariant 0 <= kk <= N - M
        invariant seed == old(seed) && base == old(base) && Halfway(status[..], seed, base, kk)
      {
        NextTerm(status[..], seed, base, kk);
        status[kk] := Twist(status[kk + M], status[kk], status[kk + 1]);
        kk := kk + 1;
      }
      while kk < N - 1
        invariant N - M <= kk <= N - 1
        invariant seed == old(seed) && base == old(base) && Halfway(status[..], seed, base, kk)
      {
        NextTerm(status[..], seed, base, kk);
        status[kk] := Twist(status[kk + M - N], status[kk], status[kk + 1]);
        kk := kk + 1;
      }
      NextTerm(status[..], seed, base, N - 1);
      status[N - 1] := Twist(status[M - 1], status[N - 1], status[0]);
      ctr := 0;
      base := base + N;
    }

    /** The next word: term number 624 + k, tempered, for the k-th draw after seeding. */
    method Rand32() returns (res: bv32)
      requires Valid()
      modifies this, status
      ensures Valid() && seed == old(seed) && Drawn() == old(Drawn()) + 1
      ensures res == Temper(Term(seed, N + old(Drawn())))
    {
      hide Term, Temper1, Temper2, Temper3, Temper4;
      if ctr >= N { Refill(); }
      res := status[ctr];
      ctr := ctr + 1;
      res := Temper1(res);
      res := Temper2(res);
      res := Temper3(res);
      res := Temper4(res);
    }

    /** The words drawn by `count` calls are consecutive tempered terms. */
    method Draw(count: nat) returns (out: seq<bv32>)
      requires Valid()
      modifies this, status
      ensures Valid() && seed == old(seed) && Drawn() == old(Drawn()) + count
      ensures |out| == count && forall k :: 0 <= k < count ==> out[k] == Temper(Term(seed, N + old(Drawn()) + k))
    {
      hide Term, Temper;
      out := [];
      for i := 0 to count
        invariant Valid() && seed == old(seed) && Drawn() == old(Drawn()) + i
        invariant |out| == i && forall k :: 0 <= k < i ==> out[k] == Temper(Term(seed, N + old(Drawn()) + k))
      {
        var x := Rand32();
        out := out + [x];
      }
    }
  }

  /** The first `kk` words are new, the others old. */
  ghost predicate Halfway(s: seq<bv32>, seed: bv32, base: nat, kk: nat)
  {
    && |s| == N
    && forall i :: 0 <= i < N ==> s[i] == Term(seed, base + i + if i < kk then N else 0)
  }

  /** Whichever side of the front the two neighbours are on, they are the terms that the recurrence asks for. */
  lemma NextTerm(s: seq<bv32>, seed: bv32, base: nat, kk: nat)
    requires kk < N && Halfway(s, seed, base, kk)
    ensures Term(seed, base + N + kk)
         == Twist(s[if kk < N - M then kk + M else kk + M - N], s[kk], s[if kk < N - 1 then kk + 1 else 0])
  {
    hide Twist;
    var far := if kk < N - M then kk + M else kk + M - N;
    assert s[far] == Term(seed, base + kk + M);
    assert s[if kk < N - 1 then kk + 1 else 0] == Term(seed, base + kk + 1);
  }
}

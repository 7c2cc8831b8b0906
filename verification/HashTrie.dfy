/**
  * The multi-level hash table of root/src/kernel/lib/ht.h.
  *
  * A level is an array of 4096 words: word 0 holds the level's random seed, the
  * others hold nothing, an element, or (tagged by the low bit) another level.
  * Levels are only ever added, so they are kept here in the order in which they
  * were obtained and a tagged word is an index into that sequence.
  */
module HashTrie {
  import opened Options

  const ENTRIES: nat := 4096
  const WORD: nat := 0x1_0000_0000_0000_0000

  /** A byte of a C string, as the signed `char` that the hash adds up. */
  type Code = c: int | -128 <= c < 128 && c != 0 witness 1
  type Name = seq<Code>

  datatype Element = Element(name: Name, payload: int)
  datatype Entry = Empty | Elem(e: Element) | Sub(level: nat)
  datatype Level = Level(seed: nat, slots: seq<Entry>)

  predicate IsSeed(s: nat) { 0 < s < WORD }

  // ---------------------------------------------------------------- the hash

  /** The djb2 accumulator, in 64-bit arithmetic. */
  function Accumulate(name: Name, seed: nat): (r: nat)
    ensures seed < WORD ==> r < WORD
  {
    if name == [] then seed
    else (33 * Accumulate(name[..|name| - 1], seed) + name[|name| - 1]) % WORD
  }

  function SlotOf(name: Name, seed: nat): (h: nat)
    ensures 1 <= h < ENTRIES
  {
    Accumulate(name, seed) % (ENTRIES - 1) + 1
  }

  function Pow33(n: nat): (r: nat) { if n == 0 then 1 else 33 * Pow33(n - 1) }

  /** The part of the hash that does not depend on the seed. */
  function Weight(name: Name): (r: int)
  {
    if name == [] then 0 else 33 * Weight(name[..|name| - 1]) + name[|name| - 1]
  }

  method HashStr(str: Name, seed: nat) returns (r: nat)
    requires seed < WORD
    ensures 1 <= r < ENTRIES
    ensures r == (Pow33(|str|) * seed + Weight(str)) % WORD % (ENTRIES - 1) + 1
    ensures r == SlotOf(str, seed)
  {
    var acc := seed;
    for i := 0 to |str|
      invariant acc < WORD
      invariant acc == Accumulate(str[..i], seed)
    {
      acc := (33 * acc + str[i]) % WORD;
      assert str[..i + 1][..i] == str[..i];
    }
    assert str[..|str|] == str;
    HashLinear(str, seed);
    r := acc % (ENTRIES - 1) + 1;
  }

  lemma ModStep(a: int, b: int, c: int)
    requires a % WORD == b % WORD
    ensures (33 * a + c) % WORD == (33 * b + c) % WORD
  {
    var q := a / WORD - b / WORD;
    assert a == b + q * WORD;
    assert 33 * a + c == (33 * b + c) + (33 * q) * WORD;
    ModPlus(33 * b + c, 33 * q);
  }

  lemma ModPlus(x: int, k: int)
    ensures (x + k * WORD) % WORD == x % WORD
  {
    assert (x + k * WORD) / WORD == x / WORD + k;
  }

  lemma TimesAssociates(a: int, b: int)
    ensures 33 * a * b == 33 * (a * b)
  { }

  lemma LinearStep(acc: int, p: int, seed: int, w: int, c: int)
    requires acc == (p * seed + w) % WORD
    ensures (33 * acc + c) % WORD == (33 * p * seed + (33 * w + c)) % WORD
  {
    TimesAssociates(p, seed);
    var b := p * seed + w;
    assert acc % WORD == b % WORD;
    ModStep(acc, b, c);
  }

  lemma {:induction false} HashLinear(name: Name, seed: nat)
    requires seed < WORD
    ensures Accumulate(name, seed) == (Pow33(|name|) * seed + Weight(name)) % WORD
  {
    if name != [] {
      var n := |name| - 1;
      HashLinear(name[..n], seed);
      LinearStep(Accumulate(name[..n], seed), Pow33(n), seed, Weight(name[..n]), name[n]);
    }
  }

  /** Two names of one length and one weight share a slot at every level. */
  predicate Twins(a: Name, b: Name) { a != b && |a| == |b| && Weight(a) % WORD == Weight(b) % WORD }

  lemma TwinsAlwaysCollide(a: Name, b: Name, seed: nat)
    requires Twins(a, b) && seed < WORD
    ensures SlotOf(a, seed) == SlotOf(b, seed)
  {
    HashLinear(a, seed);
    HashLinear(b, seed);
    var k := Weight(a) / WORD - Weight(b) / WORD;
    assert Weight(a) == Weight(b) + k * WORD;
    ModPlus(Pow33(|a|) * seed + Weight(b), k);
  }

  /** What 33 must be multiplied by to give 1 modulo the word. */
  const INVERSE: nat := 1117984489315730401

  /** The seed from which a name's accumulator comes to `x`. */
  function SeedFor(name: Name, x: nat): (s: nat)
    requires x < WORD
    ensures s < WORD
  {
    if name == [] then x
    else SeedFor(name[..|name| - 1], (x - name[|name| - 1]) * INVERSE % WORD)
  }

  lemma InverseUndoes(x: nat, c: int)
    requires x < WORD
    ensures (33 * ((x - c) * INVERSE % WORD) + c) % WORD == x
  {
    var y := (x - c) * INVERSE;
    assert 33 * y == (x - c) + (x - c) * (33 * INVERSE - 1);
    var k := (33 * INVERSE - 1) / WORD;
    assert 33 * INVERSE - 1 == k * WORD;
    ProductAssociates(x - c, k);
    assert 33 * y == (x - c) + (x - c) * k * WORD;
    assert y % WORD == y - y / WORD * WORD;
    ModPlus(x, (x - c) * k - 33 * (y / WORD));
    assert 33 * (y % WORD) + c == x + ((x - c) * k - 33 * (y / WORD)) * WORD;
  }

  lemma ProductAssociates(a: int, k: int)
    ensures a * (k * WORD) == a * k * WORD
  { }

  lemma {:induction false} SeedForHits(name: Name, x: nat)
    requires x < WORD
    ensures Accumulate(name, SeedFor(name, x)) == x
  {
    if name != [] {
      var n := |name| - 1;
      InverseUndoes(x, name[n]);
      SeedForHits(name[..n], (x - name[n]) * INVERSE % WORD);
    }
  }

  /** By how much the accumulators of two names of one length differ, whatever the seed. */
  function Apart(a: Name, b: Name): nat { (Weight(a) - Weight(b)) % WORD }

  lemma AccumulatorsApart(a: Name, b: Name, seed: nat)
    requires |a| == |b| && seed < WORD
    ensures Accumulate(a, seed) == (Accumulate(b, seed) + Apart(a, b)) % WORD
  {
    hide Accumulate, Weight, Pow33;
    HashLinear(a, seed);
    HashLinear(b, seed);
    var p := Pow33(|a|) * seed;
    assert p + Weight(a) == (p + Weight(b)) + (Weight(a) - Weight(b));
    ModAdds(p + Weight(b), Weight(a) - Weight(b));
  }

  lemma ModAdds(x: int, d: int)
    ensures (x + d) % WORD == (x % WORD + d % WORD) % WORD
  {
    ModPlus(x % WORD + d % WORD, x / WORD + d / WORD);
    assert x + d == x % WORD + d % WORD + (x / WORD + d / WORD) * WORD;
  }

  /** Accumulators of `b` that share no slot with the one `d` further on. */
  lemma TwoThatSeparate(d: nat) returns (x: nat, y: nat)
    requires 0 < d < WORD
    ensures x < WORD && y < WORD && x != y
    ensures x % (ENTRIES - 1) != (x + d) % WORD % (ENTRIES - 1)
    ensures y % (ENTRIES - 1) != (y + d) % WORD % (ENTRIES - 1)
  {
    if d % (ENTRIES - 1) == 0 {
      x, y := WORD - 1, WORD - 2;
      FromTheTop(d, 1);
      FromTheTop(d, 2);
    } else {
      x, y := 0, 1;
      FromTheBottom(d);
    }
  }

  lemma RemainderIs(v: int, q: int, r: int)
    requires v == (ENTRIES - 1) * q + r && 0 <= r < ENTRIES - 1
    ensures v % (ENTRIES - 1) == r
  { }

  lemma FromTheTop(d: nat, k: nat)
    requires 0 < d < WORD && d % (ENTRIES - 1) == 0 && 1 <= k <= 2
    ensures (WORD - k) % (ENTRIES - 1) != (WORD - k + d) % WORD % (ENTRIES - 1)
  {
    var q := d / (ENTRIES - 1);
    assert d == (ENTRIES - 1) * q && q >= 1;
    ModPlus(d - k, 1);
    assert (WORD - k + d) % WORD == d - k;
    RemainderIs(d - k, q - 1, ENTRIES - 1 - k);
    RemainderIs(WORD - k, WORD / (ENTRIES - 1), 16 - k);
  }

  lemma FromTheBottom(d: nat)
    requires 0 < d < WORD && d % (ENTRIES - 1) != 0
    ensures 0 != (0 + d) % WORD % (ENTRIES - 1) && 1 != (1 + d) % WORD % (ENTRIES - 1)
  {
    var q, r := d / (ENTRIES - 1), d % (ENTRIES - 1);
    assert d == (ENTRIES - 1) * q + r;
    if d + 1 < WORD {
      RemainderIs(d + 1, if r + 1 == ENTRIES - 1 then q + 1 else q, if r + 1 == ENTRIES - 1 then 0 else r + 1);
    }
  }

  /** Names of one length are twins exactly if no seed ever separates them. */
  lemma TwinsExactly(a: Name, b: Name)
    requires |a| == |b| && a != b
    ensures Twins(a, b) <==> forall seed :: IsSeed(seed) ==> SlotOf(a, seed) == SlotOf(b, seed)
  {
    hide Weight, Accumulate;
    if Twins(a, b) {
      forall seed | IsSeed(seed)
        ensures SlotOf(a, seed) == SlotOf(b, seed)
      {
        TwinsAlwaysCollide(a, b, seed);
      }
    } else {
      WeightsApart(a, b);
      var x, y := TwoThatSeparate(Apart(a, b));
      SeedForHits(b, x);
      SeedForHits(b, y);
      var s := if SeedFor(b, x) != 0 then SeedFor(b, x) else SeedFor(b, y);
      AccumulatorsApart(a, b, s);
      assert IsSeed(s) && SlotOf(a, s) != SlotOf(b, s);
    }
  }

  lemma WeightsApart(a: Name, b: Name)
    requires |a| == |b| && a != b && !Twins(a, b)
    ensures Apart(a, b) != 0
  {
    var d := Weight(a) - Weight(b);
    if d % WORD == 0 {
      ModPlus(Weight(b), d / WORD);
    }
  }

  /** "ab" and "bA" are such a pair. */
  lemma TwinsExist()
    ensures Twins([97, 98], [98, 65])
  {
    assert Weight([97]) == 97 by { assert [97][..0] == []; }
    assert Weight([98]) == 98 by { assert [98][..0] == []; }
    assert [97, 98][..1] == [97];
    assert [98, 65][..1] == [98];
    assert Weight([97, 98]) == 33 * 97 + 98;
    assert Weight([98, 65]) == 33 * 98 + 65;
    assert [97, 98][0] != [98, 65][0];
  }

  // --------------------------------------------------------------- the table

  /** Where a level hangs: the slot `slot` of the level `level`. */
  datatype Place = Place(level: nat, slot: nat)

  ghost predicate LevelOk(p: seq<Level>, up: seq<Place>, i: nat)
    requires i < |p|
  {
    && IsSeed(p[i].seed)
    && |p[i].slots| == ENTRIES
    && p[i].slots[0] == Empty
    && forall h :: 0 <= h < ENTRIES ==> EntryOk(p, up, i, h, p[i].slots[h])
  }

  ghost predicate EntryOk(p: seq<Level>, up: seq<Place>, i: nat, h: nat, e: Entry)
  {
    match e
    case Empty => true
    case Elem(x) => Passes(p, up, x.name, i) && i < |p| && SlotOf(x.name, p[i].seed) == h
    case Sub(j) => i < j < |p| && j < |up| && up[j] == Place(i, h)
  }

  /** The walk of `n` from the first level goes through level `i`. */
  ghost predicate Passes(p: seq<Level>, up: seq<Place>, n: Name, i: nat)
  {
    i == 0 ||
    (i < |p| && i < |up| && up[i].level < i && SlotOf(n, p[up[i].level].seed) == up[i].slot && Passes(p, up, n, up[i].level))
  }

  ghost predicate TrieOk(p: seq<Level>, up: seq<Place>)
  {
    && 0 < |p| == |up|
    && forall i :: 0 <= i < |p| ==> LevelOk(p, up, i)
  }

  /** The slot at which the walk of `n` from level `i` ends. */
  function End(p: seq<Level>, i: nat, n: Name): (r: Place)
    requires i < |p|
    decreases |p| - i
  {
    var h := SlotOf(n, p[i].seed);
    if h < |p[i].slots| && p[i].slots[h].Sub? && i < p[i].slots[h].level < |p|
    then End(p, p[i].slots[h].level, n)
    else Place(i, h)
  }

  function At(p: seq<Level>, x: Place): (e: Entry)
  {
    if x.level < |p| && x.slot < |p[x.level].slots| then p[x.level].slots[x.slot] else Empty
  }

  function Lookup(p: seq<Level>, i: nat, n: Name): (r: Option<Element>)
    requires i < |p|
  {
    var e := At(p, End(p, i, n));
    if e.Elem? && e.e.name == n then Some(e.e) else None
  }

  /** The table stands for the finite map `m`. */
  ghost predicate Represents(p: seq<Level>, m: map<Name, Element>)
    requires 0 < |p|
  {
    forall n: Name :: Lookup(p, 0, n) == if n in m then Some(m[n]) else None
  }

  lemma {:induction false} EndOk(p: seq<Level>, up: seq<Place>, i: nat, n: Name)
    requires TrieOk(p, up) && i < |p| && Passes(p, up, n, i)
    ensures var x := End(p, i, n);
      i <= x.level < |p| && x.slot == SlotOf(n, p[x.level].seed) && Passes(p, up, n, x.level) && !At(p, x).Sub?
    decreases |p| - i
  {
    var h := SlotOf(n, p[i].seed);
    assert LevelOk(p, up, i);
    assert EntryOk(p, up, i, h, p[i].slots[h]);
    if p[i].slots[h].Sub? {
      EndOk(p, up, p[i].slots[h].level, n);
    }
  }

  /** Every level but the first is still linked from where it hangs. */
  ghost predicate Linked(p: seq<Level>, up: seq<Place>)
  {
    forall j :: 0 < j < |p| && j < |up| ==> At(p, up[j]) == Sub(j) && up[j].level < j
  }

  // ---------------------------------------------------------- the two updates

  function SetSlot(p: seq<Level>, x: Place, e: Entry): (r: seq<Level>)
    requires x.level < |p| && x.slot < |p[x.level].slots|
    ensures |r| == |p|
  {
    p[x.level := p[x.level].(slots := p[x.level].slots[x.slot := e])]
  }

  /** Storing or clearing an element in the slot at which its name's walk ends. */
  ghost predicate CanStore(p: seq<Level>, up: seq<Place>, n: Name, x: Place, e: Entry)
  {
    && TrieOk(p, up) && Linked(p, up)
    && x == End(p, 0, n)
    && (At(p, x) == Empty || (At(p, x).Elem? && At(p, x).e.name == n))
    && !e.Sub? && (e.Elem? ==> e.e.name == n)
  }

  lemma {:induction false} StorePasses(p: seq<Level>, up: seq<Place>, x: Place, e: Entry, n: Name, i: nat)
    requires x.level < |p| && x.slot < |p[x.level].slots|
    ensures Passes(SetSlot(p, x, e), up, n, i) == Passes(p, up, n, i)
    decreases i
  {
    if i != 0 && i < |p| && i < |up| && up[i].level < i {
      StorePasses(p, up, x, e, n, up[i].level);
    }
  }

  lemma StoreOk(p: seq<Level>, up: seq<Place>, n: Name, x: Place, e: Entry)
    requires CanStore(p, up, n, x, e)
    ensures x.level < |p| && 0 < x.slot < |p[x.level].slots|
    ensures TrieOk(SetSlot(p, x, e), up) && Linked(SetSlot(p, x, e), up)
  {
    EndOk(p, up, 0, n);
    assert LevelOk(p, up, x.level);
    var q := SetSlot(p, x, e);
    forall i | 0 <= i < |q| ensures LevelOk(q, up, i) {
      assert LevelOk(p, up, i);
      forall h | 0 <= h < ENTRIES ensures EntryOk(q, up, i, h, q[i].slots[h]) {
        assert EntryOk(p, up, i, h, p[i].slots[h]);
        if q[i].slots[h].Elem? { StorePasses(p, up, x, e, q[i].slots[h].e.name, i); }
      }
    }
  }

  lemma {:induction false} StoreEnd(p: seq<Level>, x: Place, e: Entry, k: nat, n: Name)
    requires x.level < |p| && x.slot < |p[x.level].slots| && k < |p|
    requires !At(p, x).Sub? && !e.Sub?
    ensures End(SetSlot(p, x, e), k, n) == End(p, k, n)
    decreases |p| - k
  {
    var h := SlotOf(n, p[k].seed);
    if h < |p[k].slots| && p[k].slots[h].Sub? && k < p[k].slots[h].level < |p| {
      StoreEnd(p, x, e, p[k].slots[h].level, n);
    }
  }

  /** A store changes what is found under one name and under no other. */
  lemma StoreLookup(p: seq<Level>, up: seq<Place>, n: Name, x: Place, e: Entry, m: map<Name, Element>)
    requires CanStore(p, up, n, x, e) && Represents(p, m)
    ensures x.level < |p| && x.slot < |p[x.level].slots|
    ensures TrieOk(SetSlot(p, x, e), up) && Linked(SetSlot(p, x, e), up)
    ensures Represents(SetSlot(p, x, e), if e.Elem? then m[n := e.e] else m - {n})
  {
    hide TrieOk, Linked, Passes, Lookup, SetSlot, End;
    StoreOk(p, up, n, x, e);
    forall k: Name
      ensures Lookup(SetSlot(p, x, e), 0, k) == if k == n then (if e.Elem? then Some(e.e) else None) else Lookup(p, 0, k)
    {
      StoreLookupAt(p, up, n, x, e, k);
    }
  }

  lemma StoreLookupAt(p: seq<Level>, up: seq<Place>, n: Name, x: Place, e: Entry, k: Name)
    requires CanStore(p, up, n, x, e)
    requires x.level < |p| && x.slot < |p[x.level].slots|
    ensures Lookup(SetSlot(p, x, e), 0, k) == if k == n then (if e.Elem? then Some(e.e) else None) else Lookup(p, 0, k)
  {
    hide TrieOk, Linked, Passes;
    StoreEnd(p, x, e, 0, k);
  }

  /** Replacing an element by a fresh level that holds it. */
  function Split(p: seq<Level>, x: Place, seed: nat): (r: seq<Level>)
    requires x.level < |p| && x.slot < |p[x.level].slots| && At(p, x).Elem?
    ensures |r| == |p| + 1
  {
    SetSlot(p, x, Sub(|p|)) + [Fresh(seed, At(p, x).e)]
  }

  function Bare(seed: nat): (l: Level) { Level(seed, seq(ENTRIES, _ => Empty)) }

  function Fresh(seed: nat, e: Element): (l: Level)
    ensures |l.slots| == ENTRIES && l.seed == seed && l.slots[SlotOf(e.name, seed)] == Elem(e)
    ensures forall h :: 0 <= h < ENTRIES && h != SlotOf(e.name, seed) ==> l.slots[h] == Empty
  {
    Level(seed, seq(ENTRIES, _ => Empty)[SlotOf(e.name, seed) := Elem(e)])
  }

  ghost predicate CanSplit(p: seq<Level>, up: seq<Place>, n: Name, x: Place, seed: nat)
  {
    && TrieOk(p, up) && Linked(p, up)
    && x == End(p, 0, n)
    && At(p, x).Elem?
    && IsSeed(seed)
  }

  lemma {:induction false} SplitPasses(p: seq<Level>, up: seq<Place>, x: Place, seed: nat, n: Name, i: nat)
    requires x.level < |p| == |up| && x.slot < |p[x.level].slots| && At(p, x).Elem? && i < |p|
    ensures Passes(Split(p, x, seed), up + [x], n, i) == Passes(p, up, n, i)
    decreases i
  {
    if i != 0 && up[i].level < i {
      SplitPasses(p, up, x, seed, n, up[i].level);
    }
  }

  lemma SplitOk(p: seq<Level>, up: seq<Place>, n: Name, x: Place, seed: nat)
    requires CanSplit(p, up, n, x, seed)
    ensures x.level < |p| && 0 < x.slot < |p[x.level].slots|
    ensures TrieOk(Split(p, x, seed), up + [x]) && Linked(Split(p, x, seed), up + [x])
  {
    EndOk(p, up, 0, n);
    assert LevelOk(p, up, x.level);
    var q, o := Split(p, x, seed), At(p, x).e;
    assert EntryOk(p, up, x.level, x.slot, Elem(o));
    SplitPasses(p, up, x, seed, o.name, x.level);
    assert Passes(q, up + [x], o.name, |p|);
    forall i | 0 <= i < |q| ensures LevelOk(q, up + [x], i) {
      if i < |p| {
        assert LevelOk(p, up, i);
        forall h | 0 <= h < ENTRIES ensures EntryOk(q, up + [x], i, h, q[i].slots[h]) {
          assert EntryOk(p, up, i, h, p[i].slots[h]);
          if q[i].slots[h].Elem? { SplitPasses(p, up, x, seed, q[i].slots[h].e.name, i); }
        }
      }
    }
  }

  lemma {:induction false} SplitEnd(p: seq<Level>, up: seq<Place>, x: Place, seed: nat, k: nat, n: Name)
    requires TrieOk(p, up) && k < |p|
    requires x.level < |p| && x.slot < |p[x.level].slots| && At(p, x).Elem?
    ensures End(Split(p, x, seed), k, n) == if End(p, k, n) == x then Place(|p|, SlotOf(n, seed)) else End(p, k, n)
    decreases |p| - k
  {
    var h := SlotOf(n, p[k].seed);
    var q := Split(p, x, seed);
    assert LevelOk(p, up, k);
    assert EntryOk(p, up, k, h, p[k].slots[h]);
    if p[k].slots[h].Sub? {
      SplitEnd(p, up, x, seed, p[k].slots[h].level, n);
      assert q[k].slots[h] == p[k].slots[h];
    } else if x == Place(k, h) {
      assert q[k].slots[h] == Sub(|p|);
      assert End(q, |p|, n) == Place(|p|, SlotOf(n, seed));
    }
  }

  lemma SplitLookupAt(p: seq<Level>, up: seq<Place>, n: Name, x: Place, seed: nat, k: Name)
    requires CanSplit(p, up, n, x, seed) && x.level < |p| && x.slot < |p[x.level].slots|
    ensures Lookup(Split(p, x, seed), 0, k) == Lookup(p, 0, k)
  {
    hide Linked;
    SplitEnd(p, up, x, seed, 0, k);
    EndOk(p, up, 0, k);
    assert LevelOk(p, up, End(p, 0, k).level);
  }

  /** A split changes nothing that can be looked up. */
  lemma SplitLookup(p: seq<Level>, up: seq<Place>, n: Name, x: Place, seed: nat, m: map<Name, Element>)
    requires CanSplit(p, up, n, x, seed) && Represents(p, m)
    ensures x.level < |p| && x.slot < |p[x.level].slots|
    ensures TrieOk(Split(p, x, seed), up + [x]) && Linked(Split(p, x, seed), up + [x])
    ensures Represents(Split(p, x, seed), m)
    ensures Passes(Split(p, x, seed), up + [x], n, |p|)
    ensures End(Split(p, x, seed), 0, n) == End(Split(p, x, seed), |p|, n) == Place(|p|, SlotOf(n, seed))
    ensures var o := At(p, x).e;
      At(Split(p, x, seed), Place(|p|, SlotOf(n, seed))) == if SlotOf(n, seed) == SlotOf(o.name, seed) then Elem(o) else Empty
  {
    SplitOk(p, up, n, x, seed);
    forall k: Name ensures Lookup(Split(p, x, seed), 0, k) == Lookup(p, 0, k) {
      SplitLookupAt(p, up, n, x, seed, k);
    }
    SplitEnd(p, up, x, seed, 0, n);
    EndOk(p, up, 0, n);
    SplitPasses(p, up, x, seed, n, x.level);
  }

  // ------------------------------------------------- what the table does to it

  /** The levels after an insertion that draws its seeds from `supply`. */
  function Inserted(p: seq<Level>, e: Element, supply: seq<nat>): (r: seq<Level>)
    requires 0 < |p|
    ensures 0 < |r|
    decreases |supply|
  {
    var x := End(p, 0, e.name);
    if x.level >= |p| || x.slot >= |p[x.level].slots| then p
    else match At(p, x)
      case Empty => SetSlot(p, x, Elem(e))
      case Elem(o) =>
        if o.name == e.name || supply == [] then p else Inserted(Split(p, x, supply[0]), e, supply[1..])
      case Sub(_) => p
  }

  /** The levels after a removal. */
  function Cleared(p: seq<Level>, n: Name): (r: seq<Level>)
    requires 0 < |p|
    ensures 0 < |r|
  {
    var x := End(p, 0, n);
    if x.level < |p| && x.slot < |p[x.level].slots| && At(p, x).Elem? && At(p, x).e.name == n then SetSlot(p, x, Empty) else p
  }

  // ---------------------------------------------------------------- the dump

  /** The elements in slots `h` and up of level `i`, sub-levels expanded in place. */
  function Items(p: seq<Level>, i: nat, h: nat): (r: seq<Element>)
    requires i < |p|
    decreases |p| - i, ENTRIES - h
  {
    if h >= |p[i].slots| || h >= ENTRIES then []
    else
      (match p[i].slots[h]
       case Empty => []
       case Elem(e) => [e]
       case Sub(j) => if i < j < |p| then Items(p, j, 1) else [])
      + Items(p, i, h + 1)
  }

  /** The first occupied slot from `h` on is an element, or a level of which this holds. */
  predicate Leads(p: seq<Level>, i: nat, h: nat)
    requires i < |p|
    decreases |p| - i, ENTRIES - h
  {
    h < |p[i].slots| && h < ENTRIES &&
    match p[i].slots[h]
    case Empty => Leads(p, i, h + 1)
    case Elem(e) => true
    case Sub(j) => i < j < |p| && Leads(p, j, 1)
  }

  /** With no empty sub-level the dump fails only on a table that holds nothing. */
  lemma {:induction false} LeadsUnlessEmpty(p: seq<Level>, up: seq<Place>, i: nat, h: nat)
    requires TrieOk(p, up) && i < |p| && (forall j :: 0 < j < |p| ==> Items(p, j, 1) != [])
    ensures Leads(p, i, h) <==> Items(p, i, h) != []
    decreases |p| - i, ENTRIES - h
  {
    assert LevelOk(p, up, i);
    if h < ENTRIES {
      assert EntryOk(p, up, i, h, p[i].slots[h]);
      match p[i].slots[h]
      case Empty => LeadsUnlessEmpty(p, up, i, h + 1);
      case Elem(e) =>
      case Sub(j) => LeadsUnlessEmpty(p, up, j, 1);
    }
  }

  /** What is listed from a slot on is found by a walk that starts at its level. */
  lemma {:induction false} ListedIsFound(p: seq<Level>, up: seq<Place>, i: nat, h: nat, e: Element)
    requires TrieOk(p, up) && i < |p| && e in Items(p, i, h)
    ensures Passes(p, up, e.name, i)
    ensures Lookup(p, i, e.name) == Some(e)
    ensures h <= SlotOf(e.name, p[i].seed)
    decreases |p| - i, ENTRIES - h
  {
    assert LevelOk(p, up, i);
    assert EntryOk(p, up, i, h, p[i].slots[h]);
    if e in Items(p, i, h + 1) {
      ListedIsFound(p, up, i, h + 1, e);
    } else if p[i].slots[h].Sub? {
      ListedIsFound(p, up, p[i].slots[h].level, 1, e);
    }
  }

  lemma {:induction false} FoundIsListed(p: seq<Level>, up: seq<Place>, i: nat, h: nat, n: Name)
    requires TrieOk(p, up) && i < |p| && h <= SlotOf(n, p[i].seed) && Lookup(p, i, n).Some?
    ensures Lookup(p, i, n).value in Items(p, i, h)
    decreases |p| - i, ENTRIES - h
  {
    assert LevelOk(p, up, i);
    assert EntryOk(p, up, i, h, p[i].slots[h]);
    if h < SlotOf(n, p[i].seed) {
      FoundIsListed(p, up, i, h + 1, n);
    } else if p[i].slots[h].Sub? {
      FoundIsListed(p, up, p[i].slots[h].level, 1, n);
    }
  }

  ghost predicate DistinctNames(s: seq<Element>)
  {
    forall a, b :: 0 <= a < b < |s| ==> s[a].name != s[b].name
  }

  /** What hangs under slot `h` hashes to `h`; what comes after it hashes higher. */
  lemma SlotsApart(p: seq<Level>, up: seq<Place>, i: nat, h: nat)
    requires TrieOk(p, up) && i < |p| && h < |p[i].slots|
    ensures forall e :: e in Items(p, i, h + 1) ==> h < SlotOf(e.name, p[i].seed)
    ensures p[i].slots[h].Elem? ==> SlotOf(p[i].slots[h].e.name, p[i].seed) == h
    ensures p[i].slots[h].Sub? ==> var j := p[i].slots[h].level;
      i < j < |p| && forall e :: e in Items(p, j, 1) ==> SlotOf(e.name, p[i].seed) == h
  {
    hide Items, SlotOf;
    assert LevelOk(p, up, i);
    assert EntryOk(p, up, i, h, p[i].slots[h]);
    forall e | e in Items(p, i, h + 1) ensures h < SlotOf(e.name, p[i].seed) { ListedIsFound(p, up, i, h + 1, e); }
    if p[i].slots[h].Sub? {
      var j := p[i].slots[h].level;
      forall e | e in Items(p, j, 1) ensures SlotOf(e.name, p[i].seed) == h { ListedIsFound(p, up, j, 1, e); }
    }
  }

  lemma {:induction false} ListedOnce(p: seq<Level>, up: seq<Place>, i: nat, h: nat)
    requires TrieOk(p, up) && i < |p|
    ensures DistinctNames(Items(p, i, h))
    decreases |p| - i, ENTRIES - h
  {
    assert LevelOk(p, up, i);
    if h < ENTRIES {
      assert EntryOk(p, up, i, h, p[i].slots[h]);
      ListedOnce(p, up, i, h + 1);
      if p[i].slots[h].Sub? { ListedOnce(p, up, p[i].slots[h].level, 1); }
      SlotsApart(p, up, i, h);
    }
  }

  /** The elements of the map, listed in some order and each of them once. */
  ghost predicate ListsExactly(s: seq<Element>, m: map<Name, Element>)
  {
    && DistinctNames(s) && |s| == |m|
    && (forall e :: e in s ==> e.name in m && m[e.name] == e)
    && (forall n :: n in m ==> m[n] in s)
  }

  ghost function NamesOf(s: seq<Element>): (r: set<Name>)
    ensures forall k :: 0 <= k < |s| ==> s[k].name in r
    ensures forall n :: n in r ==> exists k :: 0 <= k < |s| && s[k].name == n
  {
    if s == [] then {} else NamesOf(s[..|s| - 1]) + {s[|s| - 1].name}
  }

  lemma {:induction false} CountNames(s: seq<Element>)
    requires DistinctNames(s)
    ensures |NamesOf(s)| == |s|
  {
    if s != [] {
      CountNames(s[..|s| - 1]);
      assert s[|s| - 1].name !in NamesOf(s[..|s| - 1]);
    }
  }

  // --------------------------------------------------------------- the object

  function SeedAt(p: seq<Level>, ghost up: seq<Place>, i: nat): (s: nat)
    requires TrieOk(p, up) && i < |p|
    ensures IsSeed(s) && |p[i].slots| == ENTRIES
  {
    assert LevelOk(p, up, i);
    p[i].seed
  }

  /** One turn of a walk: it ends here or goes on in the level below. */
  lemma WalkStep(p: seq<Level>, up: seq<Place>, n: Name, i: nat)
    requires TrieOk(p, up) && i < |p| && Passes(p, up, n, i)
    ensures |p[i].slots| == ENTRIES
    ensures var e := p[i].slots[SlotOf(n, p[i].seed)];
      if e.Sub? then i < e.level < |p| && Passes(p, up, n, e.level) && End(p, i, n) == End(p, e.level, n)
      else End(p, i, n) == Place(i, SlotOf(n, p[i].seed))
  {
    assert LevelOk(p, up, i);
    var h := SlotOf(n, p[i].seed);
    assert EntryOk(p, up, i, h, p[i].slots[h]);
  }

  /** Before the first turn. */
  lemma Start(p: seq<Level>, up: seq<Place>, m: map<Name, Element>, n: Name)
    requires TrieOk(p, up) && Represents(p, m)
    ensures 0 < |p| && Passes(p, up, n, 0) && !At(p, End(p, 0, n)).Sub?
    ensures Lookup(p, 0, n) == if n in m then Some(m[n]) else None
  {
    EndOk(p, up, 0, n);
  }

  /** One turn of the dump's loop. */
  lemma DumpStep(p: seq<Level>, up: seq<Place>, i: nat, h: nat)
    requires TrieOk(p, up) && i < |p| && h < ENTRIES
    ensures |p[i].slots| == ENTRIES
    ensures p[i].slots[h].Empty? ==> Items(p, i, h) == Items(p, i, h + 1) && Leads(p, i, h) == Leads(p, i, h + 1)
    ensures p[i].slots[h].Elem? ==> Items(p, i, h) == [p[i].slots[h].e] + Items(p, i, h + 1) && Leads(p, i, h)
    ensures p[i].slots[h].Sub? ==> var j := p[i].slots[h].level;
      i < j < |p| && Items(p, i, h) == Items(p, j, 1) + Items(p, i, h + 1) && Leads(p, i, h) == Leads(p, j, 1)
  {
    assert LevelOk(p, up, i);
    assert EntryOk(p, up, i, h, p[i].slots[h]);
  }

  lemma DumpEnd(p: seq<Level>, up: seq<Place>, i: nat, buf: Option<seq<Element>>, room: nat)
    requires TrieOk(p, up) && i < |p| && (buf.Some? ==> |buf.value| <= room)
    ensures Items(p, i, ENTRIES) == [] && !Leads(p, i, ENTRIES)
    ensures Appended(buf, false, [], room) == buf
  {
    if buf.Some? { assert buf.value + [] == buf.value; }
  }

  /** `items` put behind `buf`; a buffer that does not exist yet comes into being only if they lead with an element. */
  function Appended(buf: Option<seq<Element>>, leads: bool, items: seq<Element>, room: nat): (r: Option<seq<Element>>)
  {
    var had := if buf.Some? then buf.value else [];
    if (buf.Some? || leads) && |had| + |items| <= room then Some(had + items) else None
  }

  /** One element behind the buffer, which is grown for it first. */
  function Store(buf: Option<seq<Element>>, e: Element, room: nat): (r: Option<seq<Element>>)
    ensures r == Appended(buf, true, [e], room)
  {
    match buf
    case None => assert [] + [e] == [e]; if 1 <= room then Some([e]) else None
    case Some(had) => if |had| + 1 <= room then Some(had + [e]) else None
  }

  lemma AppendedTwice(buf: Option<seq<Element>>, leads: bool, a: seq<Element>, leads': bool, b: seq<Element>, room: nat)
    ensures var t := Appended(buf, leads, a, room);
      Appended(buf, leads, a + b, room) == if t.None? then None else Appended(t, leads', b, room)
    ensures var t := Appended(buf, leads, a, room); t.Some? ==> |t.value| <= room
  {
    var had := if buf.Some? then buf.value else [];
    assert had + (a + b) == (had + a) + b;
  }

  /** How far an insertion that met `first` has come after drawing `k` seeds. */
  ghost predicate Progress(now: Entry, first: Entry, n: Name, supply: seq<nat>, k: nat)
    requires k <= |supply|
  {
    || (now == first && !Separates(first, n, supply[..k]))
    || (now == Empty && Separates(first, n, supply[..k]))
  }

  /** What two colliding names need: some seed on offer that tells them apart. */
  ghost predicate Separates(e: Entry, n: Name, supply: seq<nat>)
  {
    match e
    case Empty => true
    case Elem(o) => exists k :: 0 <= k < |supply| && SlotOf(o.name, supply[k]) != SlotOf(n, supply[k])
    case Sub(_) => false
  }

  lemma ListedIsMapped(p: seq<Level>, up: seq<Place>, m: map<Name, Element>, e: Element)
    requires TrieOk(p, up) && Represents(p, m) && e in Items(p, 0, 1)
    ensures e.name in m && m[e.name] == e
  {
    hide Items, TrieOk;
    assert 0 < |p| by { Start(p, up, m, e.name); }
    ListedIsFound(p, up, 0, 1, e);
  }

  lemma MappedIsListed(p: seq<Level>, up: seq<Place>, m: map<Name, Element>, n: Name)
    requires TrieOk(p, up) && Represents(p, m) && n in m
    ensures m[n] in Items(p, 0, 1) && m[n].name == n
  {
    assert Lookup(p, 0, n) == Some(m[n]);
    FoundIsListed(p, up, 0, 1, n);
  }

  /** Listing every level lists the elements of the map, each of them once. */
  lemma DumpListsTheMap(p: seq<Level>, up: seq<Place>, m: map<Name, Element>)
    requires TrieOk(p, up) && Represents(p, m)
    ensures ListsExactly(Items(p, 0, 1), m)
  {
    hide Items, TrieOk, Represents, NamesOf;
    Start(p, up, m, []);
    var s := Items(p, 0, 1);
    ListedOnce(p, up, 0, 1);
    forall e | e in s ensures e.name in m && m[e.name] == e { ListedIsMapped(p, up, m, e); }
    forall n | n in m ensures m[n] in s && m[n].name == n { MappedIsListed(p, up, m, n); }
    CountNames(s);
    assert NamesOf(s) == m.Keys;
  }

  /** Two names that always collide can never be in the table together, whatever seeds are drawn. */
  lemma TwinsNeverSeparate(o: Element, n: Name, supply: seq<nat>)
    requires Twins(o.name, n) && forall k :: 0 <= k < |supply| ==> IsSeed(supply[k])
    ensures !Separates(Elem(o), n, supply)
  {
    forall k | 0 <= k < |supply| ensures SlotOf(o.name, supply[k]) == SlotOf(n, supply[k]) {
      TwinsAlwaysCollide(o.name, n, supply[k]);
    }
  }

  /** A name whose twin is stored walks to the slot that holds the twin. */
  lemma {:induction false} TwinWalk(p: seq<Level>, up: seq<Place>, i: nat, a: Name, b: Name)
    requires TrieOk(p, up) && i < |p| && Twins(a, b)
    ensures End(p, i, a) == End(p, i, b)
    decreases |p| - i
  {
    assert LevelOk(p, up, i);
    TwinsAlwaysCollide(a, b, p[i].seed);
    var h := SlotOf(a, p[i].seed);
    assert EntryOk(p, up, i, h, p[i].slots[h]);
    if p[i].slots[h].Sub? { TwinWalk(p, up, p[i].slots[h].level, a, b); }
  }

  /** While a name is stored, no name that always collides with it is stored or can be added. */
  lemma TwinCannotBeAdded(p: seq<Level>, up: seq<Place>, m: map<Name, Element>, a: Name, b: Name, supply: seq<nat>)
    requires TrieOk(p, up) && Represents(p, m) && a in m && Twins(a, b)
    requires forall k :: 0 <= k < |supply| ==> IsSeed(supply[k])
    ensures b !in m && !Separates(At(p, End(p, 0, b)), b, supply)
  {
    Start(p, up, m, a);
    Start(p, up, m, b);
    TwinWalk(p, up, 0, a, b);
    TwinsNeverSeparate(m[a], b, supply);
  }

  /** One turn of an insertion, where the walk of the name ends. */
  lemma InsertedTurn(p: seq<Level>, e: Element, supply: seq<nat>, k: nat)
    requires 0 < |p| && k <= |supply|
    ensures var x, r := End(p, 0, e.name), Inserted(p, e, supply[k..]);
      x.level < |p| && x.slot < |p[x.level].slots| ==>
        var at := At(p, x);
        && (at.Empty? ==> r == SetSlot(p, x, Elem(e)))
        && (at.Elem? && (at.e.name == e.name || k == |supply|) ==> r == p)
        && (at.Elem? && at.e.name != e.name && k < |supply| ==> r == Inserted(Split(p, x, supply[k]), e, supply[k + 1..]))
  {
    if k < |supply| { assert supply[k..][1..] == supply[k + 1..]; }
  }

  class Table {
    var levels: seq<Level>
    ghost var up: seq<Place>
    ghost var contents: map<Name, Element>

    ghost predicate Valid()
      reads this
    {
      TrieOk(levels, up) && Linked(levels, up) && Represents(levels, contents)
    }

    constructor (seed: nat)
      requires IsSeed(seed)
      ensures Valid() && contents == map[] && levels == [Bare(seed)]
    {
      levels := [Bare(seed)];
      up := [Place(0, 0)];
      contents := map[];
    }

    method HtGet(name: Name) returns (ret: Option<Element>)
      requires Valid()
      ensures ret == if name in contents then Some(contents[name]) else None
    {
      hide TrieOk, Linked, Represents, Passes, End;
      Start(levels, up, contents, name);
      var ht: nat := 0;
      while true
        invariant ht < |levels| && Passes(levels, up, name, ht)
        invariant End(levels, 0, name) == End(levels, ht, name)
        decreases |levels| - ht
      {
        var hash := HashStr(name, SeedAt(levels, up, ht));
        WalkStep(levels, up, name, ht);
        match levels[ht].slots[hash]
        case Empty => return None;
        case Sub(next) => ht := next;
        case Elem(e) => return if e.name == name then Some(e) else None;
      }
    }

    method HtRemove(name: Name) returns (ret: Option<Element>)
      requires Valid()
      modifies this
      ensures Valid()
      ensures ret == if name in old(contents) then Some(old(contents)[name]) else None
      ensures contents == old(contents) - {name} && 0 < |old(levels)| && levels == Cleared(old(levels), name)
    {
      hide TrieOk, Linked, Represents, Passes, End;
      Start(levels, up, contents, name);
      var ht: nat := 0;
      while true
        invariant Valid() && levels == old(levels) && up == old(up) && contents == old(contents)
        invariant ht < |levels| && Passes(levels, up, name, ht)
        invariant End(levels, 0, name) == End(levels, ht, name)
        decreases |levels| - ht
      {
        var hash := HashStr(name, SeedAt(levels, up, ht));
        WalkStep(levels, up, name, ht);
        match levels[ht].slots[hash]
        case Empty =>
          assert contents == contents - {name};
          return None;
        case Sub(next) => ht := next;
        case Elem(e) =>
          if e.name != name {
            assert contents == contents - {name};
            return None;
          }
          var x := Place(ht, hash);
          StoreLookup(levels, up, name, x, Empty, contents);
          levels := SetSlot(levels, x, Empty);
          contents := contents - {name};
          return Some(e);
      }
    }

    /** `supply` is what successive allocations yield, each with its seed; when it is used up they fail. */
    method HtAdd(e: Element, supply: seq<nat>) returns (ret: int)
      requires Valid() && forall k :: 0 <= k < |supply| ==> IsSeed(supply[k])
      modifies this
      ensures Valid()
      ensures ret == 0 || ret == -1
      ensures ret == 0 <==>
        e.name !in old(contents) && Separates(At(old(levels), End(old(levels), 0, e.name)), e.name, supply)
      ensures 0 < |old(levels)| && levels == Inserted(old(levels), e, supply)
      ensures contents == if ret == 0 then old(contents)[e.name := e] else old(contents)
    {
      hide TrieOk, Linked, Represents, Passes, End, Split, Inserted;
      var name := e.name;
      Start(levels, up, contents, name);
      assert supply[0..] == supply;
      ghost var first := At(levels, End(levels, 0, name));
      var ht: nat, k: nat := 0, 0;
      while true
        invariant Valid() && contents == old(contents)
        invariant k <= |supply| && 0 < |levels| && Inserted(levels, e, supply[k..]) == Inserted(old(levels), e, supply)
        invariant ht < |levels| && Passes(levels, up, name, ht)
        invariant End(levels, 0, name) == End(levels, ht, name)
        invariant !first.Sub?
        invariant name in contents ==> At(levels, End(levels, 0, name)) == first == Elem(contents[name])
        invariant name !in contents ==> Progress(At(levels, End(levels, 0, name)), first, name, supply, k)
        decreases |supply| - k, |levels| - ht
      {
        var hash := HashStr(name, SeedAt(levels, up, ht));
        WalkStep(levels, up, name, ht);
        var x := Place(ht, hash);
        InsertedTurn(levels, e, supply, k);
        match levels[ht].slots[hash]
        case Empty =>
          StoreLookup(levels, up, name, x, Elem(e), contents);
          levels := SetSlot(levels, x, Elem(e));
          contents := contents[name := e];
          return 0;
        case Sub(next) => ht := next;
        case Elem(o) =>
          if o.name == name || k == |supply| {
            return -1;
          }
          SplitLookup(levels, up, name, x, supply[k], contents);
          ht := |levels|;
          up := up + [x];
          levels := Split(levels, x, supply[k]);
          k := k + 1;
      }
    }

    /**
      * Level `i` appended to `buf`, which is absent until the first element is
      * stored; `room` is how many pointers the heap can still hold.
      */
    method DumpLevel(i: nat, buf: Option<seq<Element>>, room: nat) returns (r: Option<seq<Element>>)
      requires Valid() && i < |levels|
      requires buf.Some? ==> |buf.value| <= room
      ensures r == Appended(buf, Leads(levels, i, 1), Items(levels, i, 1), room)
      ensures r.Some? ==> |r.value| <= room
      decreases |levels| - i
    {
      hide TrieOk, Linked, Represents, Items, Leads, Appended;
      r := buf;
      for h := 1 to ENTRIES
        invariant r.Some? ==> |r.value| <= room
        invariant Appended(r, Leads(levels, i, h), Items(levels, i, h), room)
               == Appended(buf, Leads(levels, i, 1), Items(levels, i, 1), room)
      {
        DumpStep(levels, up, i, h);
        match levels[i].slots[h]
        case Empty =>
        case Sub(j) =>
          AppendedTwice(r, Leads(levels, j, 1), Items(levels, j, 1), Leads(levels, i, h + 1), Items(levels, i, h + 1), room);
          r := DumpLevel(j, r, room);
          if r.None? { return; }
        case Elem(e) =>
          AppendedTwice(r, true, [e], Leads(levels, i, h + 1), Items(levels, i, h + 1), room);
          r := Store(r, e, room);
          if r.None? { return; }
      }
      DumpEnd(levels, up, i, r, room);
    }

    method HtDump(room: nat) returns (r: Option<seq<Element>>)
      requires Valid()
      ensures r.Some? <==> Leads(levels, 0, 1) && |contents| <= room
      ensures r.Some? ==> ListsExactly(r.value, contents)
    {
      DumpListsTheMap(levels, up, contents);
      r := DumpLevel(0, None, room);
    }
  }

  // ------------------------------------------- a table that cannot be listed

  /** Two names of one byte that share slot 16 under the seed 1 but not under the seed 2, and a third. */
  const FIRST: Element := Element([-34], 1)
  const SECOND: Element := Element([-18], 2)
  const THIRD: Element := Element([100], 3)

  lemma OneByte(x: Code, seed: nat)
    ensures SlotOf([x], seed) == (33 * seed + x) % WORD % (ENTRIES - 1) + 1
  {
    assert [x][..0] == [];
    assert Accumulate([], seed) == seed;
    assert Accumulate([x], seed) == (33 * seed + x) % WORD;
  }

  lemma TheirSlots()
    ensures SlotOf(FIRST.name, 1) == SlotOf(SECOND.name, 1) == 16 && SlotOf(THIRD.name, 1) == 134
    ensures SlotOf(FIRST.name, 2) == 33 && SlotOf(SECOND.name, 2) == 49
  {
    hide SlotOf;
    OneByte(-34, 1);
    OneByte(-18, 1);
    OneByte(100, 1);
    OneByte(-34, 2);
    OneByte(-18, 2);
  }

  function Upper(e: Entry, last: Entry): Level { Level(1, Bare(1).slots[16 := e][134 := last]) }
  function Lower(a: Entry, b: Entry): Level { Level(2, Bare(2).slots[33 := a][49 := b]) }

  /** The walks of the three names. */
  lemma TheirWalks(a: Entry, b: Entry, e: Entry, c: Entry)
    requires !a.Sub? && !b.Sub? && !e.Sub? && !c.Sub?
    ensures End([Upper(e, c)], 0, FIRST.name) == End([Upper(e, c)], 0, SECOND.name) == Place(0, 16)
    ensures var p := [Upper(Sub(1), c), Lower(a, b)];
      && End(p, 0, FIRST.name) == Place(1, 33) && End(p, 0, SECOND.name) == Place(1, 49) && End(p, 0, THIRD.name) == Place(0, 134)
  {
    hide SlotOf;
    TheirSlots();
    var p := [Upper(Sub(1), c), Lower(a, b)];
    assert End(p, 1, FIRST.name) == Place(1, 33);
    assert End(p, 1, SECOND.name) == Place(1, 49);
  }

  lemma AddFirst()
    ensures [Bare(1)] == [Upper(Empty, Empty)] && At([Bare(1)], End([Bare(1)], 0, FIRST.name)) == Empty
    ensures Inserted([Bare(1)], FIRST, []) == [Upper(Elem(FIRST), Empty)]
  {
    hide SlotOf, End;
    assert Bare(1) == Upper(Empty, Empty);
    TheirWalks(Empty, Empty, Empty, Empty);
    assert SetSlot([Bare(1)], Place(0, 16), Elem(FIRST))[0] == Upper(Elem(FIRST), Empty);
  }

  lemma AddSecond()
    ensures var p := [Upper(Elem(FIRST), Empty)];
      && Separates(At(p, End(p, 0, SECOND.name)), SECOND.name, [2])
      && Inserted(p, SECOND, [2]) == [Upper(Sub(1), Empty), Lower(Elem(FIRST), Elem(SECOND))]
  {
    hide SlotOf, End;
    var p, x := [Upper(Elem(FIRST), Empty)], Place(0, 16);
    TheirSlots();
    TheirWalks(Elem(FIRST), Empty, Elem(FIRST), Empty);
    assert FIRST.name[0] != SECOND.name[0];
    assert SlotOf(FIRST.name, [2][0]) != SlotOf(SECOND.name, [2][0]);
    var q := Split(p, x, 2);
    assert q[0] == Upper(Sub(1), Empty) && q[1] == Lower(Elem(FIRST), Empty);
    assert q == [Upper(Sub(1), Empty), Lower(Elem(FIRST), Empty)];
    assert SetSlot(q, Place(1, 49), Elem(SECOND))[1] == Lower(Elem(FIRST), Elem(SECOND));
    assert SetSlot(q, Place(1, 49), Elem(SECOND)) == [Upper(Sub(1), Empty), Lower(Elem(FIRST), Elem(SECOND))];
    assert [2][1..] == [];
  }

  lemma RemoveBoth()
    ensures Cleared([Upper(Sub(1), Empty), Lower(Elem(FIRST), Elem(SECOND))], FIRST.name)
      == [Upper(Sub(1), Empty), Lower(Empty, Elem(SECOND))]
    ensures Cleared([Upper(Sub(1), Empty), Lower(Empty, Elem(SECOND))], SECOND.name)
      == [Upper(Sub(1), Empty), Lower(Empty, Empty)]
  {
    hide SlotOf, End;
    TheirWalks(Elem(FIRST), Elem(SECOND), Empty, Empty);
    TheirWalks(Empty, Elem(SECOND), Empty, Empty);
    var p := [Upper(Sub(1), Empty), Lower(Elem(FIRST), Elem(SECOND))];
    assert SetSlot(p, Place(1, 33), Empty)[1] == Lower(Empty, Elem(SECOND));
    var q := [Upper(Sub(1), Empty), Lower(Empty, Elem(SECOND))];
    assert SetSlot(q, Place(1, 49), Empty)[1] == Lower(Empty, Empty);
  }

  lemma AddThird()
    ensures var p := [Upper(Sub(1), Empty), Lower(Empty, Empty)];
      && At(p, End(p, 0, THIRD.name)) == Empty
      && Inserted(p, THIRD, []) == [Upper(Sub(1), Elem(THIRD)), Lower(Empty, Empty)]
  {
    hide SlotOf, End;
    TheirWalks(Empty, Empty, Empty, Empty);
    var p := [Upper(Sub(1), Empty), Lower(Empty, Empty)];
    assert SetSlot(p, Place(0, 134), Elem(THIRD))[0] == Upper(Sub(1), Elem(THIRD));
  }

  lemma {:induction false} LeadsPastEmpty(p: seq<Level>, i: nat, h: nat, k: nat)
    requires i < |p| && h <= k <= |p[i].slots| && k <= ENTRIES && forall m :: h <= m < k ==> p[i].slots[m] == Empty
    ensures Leads(p, i, h) == Leads(p, i, k)
    decreases k - h
  {
    if h < k { LeadsPastEmpty(p, i, h + 1, k); }
  }

  /** The empty level in slot 16 keeps the buffer from coming into being. */
  lemma EmptyLevelLeads(c: Entry)
    ensures !Leads([Upper(Sub(1), c), Lower(Empty, Empty)], 0, 1)
  {
    hide Leads;
    var p := [Upper(Sub(1), c), Lower(Empty, Empty)];
    LeadsPastEmpty(p, 0, 1, 16);
    LeadsPastEmpty(p, 1, 1, ENTRIES);
    LeadsAtSub(p);
  }

  lemma LeadsAtSub(p: seq<Level>)
    requires |p| == 2 && |p[0].slots| == |p[1].slots| == ENTRIES && p[0].slots[16] == Sub(1)
    ensures Leads(p, 0, 16) == Leads(p, 1, 1) && !Leads(p, 1, ENTRIES)
  { }

  /** From a new table: two names that collide are added and removed, and a third is added behind them. */
  method UnlistableTable() returns (t: Table)
    ensures fresh(t) && t.Valid() && t.contents == map[THIRD.name := THIRD]
    ensures 0 < |t.levels| && !Leads(t.levels, 0, 1)
  {
    hide End, Inserted, Cleared, Leads, TrieOk, Linked, Represents;
    t := new Table(1);
    AddFirst();
    var r := t.HtAdd(FIRST, []);
    AddSecond();
    assert FIRST.name[0] != SECOND.name[0];
    r := t.HtAdd(SECOND, [2]);
    RemoveBoth();
    var e := t.HtRemove(FIRST.name);
    e := t.HtRemove(SECOND.name);
    AddThird();
    r := t.HtAdd(THIRD, []);
    EmptyLevelLeads(Elem(THIRD));
  }
}

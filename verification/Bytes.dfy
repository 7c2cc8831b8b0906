// Bytes, blocks of bytes, and the flat byte array that a list of blocks stands for.

module Bytes {
  type byte = bv8

  // A block device transfers whole blocks of a fixed size.
  type Block = seq<byte>

  ghost predicate Blocky(bs: seq<Block>, size: nat) {
    forall b :: 0 <= b < |bs| ==> |bs[b]| == size
  }

  // The blocks laid end to end.
  function Flat(bs: seq<Block>): seq<byte> {
    if bs == [] then [] else bs[0] + Flat(bs[1..])
  }

  // `w` laid over `s` from position `at`.
  function Splice(s: seq<byte>, at: nat, w: seq<byte>): (r: seq<byte>)
    requires at + |w| <= |s|
    ensures |r| == |s|
    ensures forall p :: 0 <= p < |s| ==> r[p] == if at <= p < at + |w| then w[p - at] else s[p]
  {
    s[..at] + w + s[at + |w|..]
  }

  // How many blocks hold the first `n` bytes.
  function BlocksFor(n: nat, size: nat): nat
    requires size > 0
  {
    if n == 0 then 0 else if n <= size then 1 else 1 + BlocksFor(n - size, size)
  }

  lemma DivMod(n: nat, d: nat)
    requires d > 0
    ensures n == (n / d) * d + n % d
    ensures 0 <= n % d < d && 0 <= n / d
  {
  }

  lemma MulMono(a: nat, b: nat, c: nat)
    requires a <= b
    ensures a * c <= b * c
  {
  }

  // `BlocksFor` is the least sufficient number of blocks.
  lemma {:induction false} BlocksForLeast(n: nat, k: nat, size: nat)
    requires size > 0
    ensures n <= k * size <==> BlocksFor(n, size) <= k
    decreases n
  {
    if n > size {
      if k > 0 {
        BlocksForLeast(n - size, k - 1, size);
        assert k * size == (k - 1) * size + size;
      }
    } else if k > 0 {
      MulMono(1, k, size);
    }
  }

  lemma {:induction false} FlatConcat(a: seq<Block>, b: seq<Block>)
    ensures Flat(a + b) == Flat(a) + Flat(b)
  {
    if a == [] {
      assert a + b == b;
    } else {
      FlatConcat(a[1..], b);
      assert (a + b)[1..] == a[1..] + b;
    }
  }

  lemma {:induction false} FlatLength(bs: seq<Block>, size: nat)
    requires Blocky(bs, size)
    ensures |Flat(bs)| == |bs| * size
  {
    if bs != [] {
      FlatLength(bs[1..], size);
      assert |bs| * size == size + (|bs| - 1) * size;
    }
  }

  // Byte `o` of block `b` is byte `b * size + o` of the flat array.
  lemma FlatSplit(bs: seq<Block>, b: nat, size: nat)
    requires Blocky(bs, size) && b < |bs|
    ensures Flat(bs) == Flat(bs[..b]) + bs[b] + Flat(bs[b + 1..])
    ensures |Flat(bs[..b])| == b * size
  {
    assert bs == bs[..b] + bs[b..];
    FlatConcat(bs[..b], bs[b..]);
    FlatLength(bs[..b], size);
    assert bs[b..][1..] == bs[b + 1..];
  }

  lemma SliceMiddle(pre: seq<byte>, x: seq<byte>, post: seq<byte>, o: nat, n: nat)
    requires o + n <= |x|
    ensures (pre + x + post)[|pre| + o..|pre| + o + n] == x[o..o + n]
  {
  }

  lemma FlatSlice(bs: seq<Block>, b: nat, o: nat, n: nat, size: nat)
    requires Blocky(bs, size) && b < |bs| && o + n <= size
    ensures |Flat(bs)| == |bs| * size
    ensures b * size + o + n <= |Flat(bs)|
    ensures Flat(bs)[b * size + o..b * size + o + n] == bs[b][o..o + n]
  {
    FlatLength(bs, size);
    FlatSplit(bs, b, size);
    MulMono(b + 1, |bs|, size);
    var pre := Flat(bs[..b]);
    var post := Flat(bs[b + 1..]);
    SliceMiddle(pre, bs[b], post, o, n);
  }

  lemma SpliceMiddle(pre: seq<byte>, x: seq<byte>, post: seq<byte>, o: nat, w: seq<byte>)
    requires o + |w| <= |x|
    ensures Splice(pre + x + post, |pre| + o, w) == pre + Splice(x, o, w) + post
  {
    var l, r := Splice(pre + x + post, |pre| + o, w), pre + Splice(x, o, w) + post;
    assert |l| == |r|;
    forall p | 0 <= p < |l|
      ensures l[p] == r[p]
    {
      if |pre| <= p < |pre| + |x| {
        assert r[p] == Splice(x, o, w)[p - |pre|];
      }
    }
  }

  // Splicing inside one block splices the flat array.
  lemma FlatSplice(bs: seq<Block>, b: nat, o: nat, w: seq<byte>, size: nat)
    requires Blocky(bs, size) && b < |bs| && o + |w| <= size
    ensures b * size + o + |w| <= |Flat(bs)|
    ensures Flat(bs[b := Splice(bs[b], o, w)]) == Splice(Flat(bs), b * size + o, w)
  {
    hide Flat;
    var x := Splice(bs[b], o, w);
    var pre, post := Flat(bs[..b]), Flat(bs[b + 1..]);
    FlatOne(bs, b, bs[b], size);
    assert bs[b := bs[b]] == bs;
    FlatOne(bs, b, x, size);
    SpliceMiddle(pre, bs[b], post, o, w);
  }

  // The flat array around one block.
  lemma FlatOne(bs: seq<Block>, b: nat, x: Block, size: nat)
    requires Blocky(bs, size) && b < |bs| && |x| == size
    ensures Flat(bs[b := x]) == Flat(bs[..b]) + x + Flat(bs[b + 1..]) && |Flat(bs[..b])| == b * size
  {
    hide Flat;
    var cs := bs[b := x];
    FlatSplit(cs, b, size);
    assert cs[..b] == bs[..b] && cs[b + 1..] == bs[b + 1..];
  }

  // What a write of `w` at `at` leaves of the byte array `o`: `c` is at least as long,
  // holds `w` in its range, and every other byte of `o` unchanged.
  ghost predicate Wrote(o: seq<byte>, c: seq<byte>, at: nat, w: seq<byte>) {
    && |o| <= |c|
    && (w != [] ==> at + |w| <= |c|)
    && (forall p :: 0 <= p < |o| && !(at <= p < at + |w|) ==> c[p] == o[p])
    && (forall p :: at <= p < at + |w| ==> c[p] == w[p - at])
  }

  // Two adjacent writes make one.
  lemma WroteMore(o: seq<byte>, c: seq<byte>, d: seq<byte>, at: nat, w: seq<byte>, v: seq<byte>)
    requires Wrote(o, c, at, w) && Wrote(c, d, at + |w|, v)
    ensures Wrote(o, d, at, w + v)
  {
  }

  lemma FlatPrefix(a: seq<Block>, b: seq<Block>)
    requires a <= b
    ensures Flat(a) <= Flat(b)
  {
    assert b == a + b[|a|..];
    FlatConcat(a, b[|a|..]);
  }

  lemma BlocksForMono(m: nat, n: nat, size: nat)
    requires size > 0 && m <= n
    ensures BlocksFor(m, size) <= BlocksFor(n, size)
  {
    BlocksForLeast(n, BlocksFor(n, size), size);
    BlocksForLeast(m, BlocksFor(n, size), size);
  }

  // Position `pos` is byte `o` of block `b`.
  ghost predicate At(pos: nat, b: nat, o: nat, size: nat) {
    o < size && pos == b * size + o
  }

  // The block of a position and the offset in it.
  method Locate(pos: nat, size: nat) returns (b: nat, o: nat)
    requires size > 0
    ensures At(pos, b, o, size)
  {
    b, o := pos / size, pos % size;
    DivMod(pos, size);
  }

  lemma AtBound(pos: nat, b: nat, o: nat, n: nat, size: nat)
    requires At(pos, b, o, size) && pos < n
    ensures b < BlocksFor(n, size)
  {
    BlocksForLeast(n, b, size);
  }

  // A transfer that ends inside or at the end of block `b` needs `b + 1` blocks.
  lemma BlocksForChunk(pos: nat, b: nat, o: nat, n: nat, size: nat)
    requires At(pos, b, o, size) && n > 0 && o + n <= size
    ensures BlocksFor(pos + n, size) == b + 1
  {
    BlocksForLeast(pos + n, b + 1, size);
    BlocksForLeast(pos + n, b, size);
  }

  // The chunk of at most one block that starts at `pos`.
  lemma ChunkSlice(bs: seq<Block>, pos: nat, b: nat, o: nat, n: nat, size: nat)
    requires At(pos, b, o, size) && Blocky(bs, size) && b < |bs| && o + n <= size
    ensures pos + n <= |Flat(bs)|
    ensures Flat(bs)[pos..pos + n] == bs[b][o..o + n]
  {
    FlatSlice(bs, b, o, n, size);
  }

  lemma ChunkSplice(bs: seq<Block>, pos: nat, b: nat, o: nat, w: seq<byte>, size: nat)
    requires At(pos, b, o, size) && Blocky(bs, size) && b < |bs| && o + |w| <= size
    ensures pos + |w| <= |Flat(bs)|
    ensures Flat(bs[b := Splice(bs[b], o, w)]) == Splice(Flat(bs), pos, w)
  {
    FlatSplice(bs, b, o, w, size);
  }
}

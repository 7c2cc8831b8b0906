/**
  * Path handling of root/src/kernel/fd/vfs/vfs.c.
  *
  * Three descriptions of path normalisation are connected: the character loop of
  * the source, a machine that takes one component at a time but still works on
  * the output buffer with whatever it held before, and a fold over the list of
  * components that knows no buffer at all.
  */
module Paths {
  import opened Options

  type Text = seq<char>

  // ------------------------------------------------------- components of paths

  /** Length of the text in front of the first slash. */
  function SegEnd(s: Text): (j: nat)
    ensures j <= |s|
    ensures '/' !in s[..j]
    ensures j < |s| ==> s[j] == '/'
  {
    if s == [] || s[0] == '/' then 0 else 1 + SegEnd(s[1..])
  }

  lemma {:induction false} SegEndIs(s: Text, j: nat)
    requires j <= |s| && '/' !in s[..j] && (j == |s| || s[j] == '/')
    ensures SegEnd(s) == j
  {
    if j > 0 {
      assert s[0] in s[..j];
      assert s[1..][..j - 1] == s[1..j];
      SegEndIs(s[1..], j - 1);
    }
  }

  function Components(s: Text): (r: seq<Text>)
  {
    var j := SegEnd(s);
    if j == |s| then [s] else [s[..j]] + Components(s[j + 1..])
  }

  predicate Plain(c: Text) { c != [] && c != "." && c != ".." && '/' !in c }

  ghost predicate AllPlain(stack: seq<Text>) { forall c :: c in stack ==> Plain(c) }

  /** What one component does to the list of directories above it. */
  function ResolveOne(stack: seq<Text>, c: Text): (r: seq<Text>)
  {
    if c == "" || c == "." then stack
    else if c == ".." then (if stack == [] then [] else stack[..|stack| - 1])
    else stack + [c]
  }

  function Resolve(cs: seq<Text>, stack: seq<Text>): (r: seq<Text>)
  {
    if cs == [] then stack else Resolve(cs[1..], ResolveOne(stack, cs[0]))
  }

  function Slashed(stack: seq<Text>): (r: Text)
  {
    if stack == [] then [] else ['/'] + stack[0] + Slashed(stack[1..])
  }

  function Join(stack: seq<Text>): (r: Text)
  {
    if stack == [] then "/" else Slashed(stack)
  }

  ghost predicate Normalised(s: Text)
  {
    s == "/" || (|s| > 0 && s[0] == '/' && AllPlain(Components(s[1..])))
  }

  /** The directories named by a normalised path. */
  function Parts(s: Text): (r: seq<Text>) { if s == "/" || s == "" then [] else Components(s[1..]) }

  /** What the normaliser is for. */
  function Absolute(path: Text, pwd: Text): (r: Text)
  {
    if path == "" then pwd
    else Join(Resolve(Components(path), if path[0] == '/' then [] else Parts(pwd)))
  }

  lemma {:induction false} SlashedSnoc(stack: seq<Text>, c: Text)
    ensures Slashed(stack + [c]) == Slashed(stack) + ['/'] + c
  {
    if stack != [] {
      assert (stack + [c])[1..] == stack[1..] + [c];
      SlashedSnoc(stack[1..], c);
    } else {
      assert [c][1..] == [];
    }
  }

  lemma {:induction false} SlashedConcat(a: seq<Text>, b: seq<Text>)
    ensures Slashed(a + b) == Slashed(a) + Slashed(b)
  {
    if a == [] {
      assert a + b == b;
    } else {
      assert (a + b)[1..] == a[1..] + b;
      SlashedConcat(a[1..], b);
    }
  }

  /** A component is cut off at the slash that follows it. */
  lemma FirstComponent(c: Text, rest: Text)
    requires '/' !in c && (rest == "" || rest[0] == '/')
    ensures SegEnd(c + rest) == |c|
    ensures Components(c + rest) == [c] + if rest == "" then [] else Components(rest[1..])
  {
    var s := c + rest;
    assert s[..|c|] == c;
    SegEndIs(s, |c|);
    if rest != "" { assert s[|c| + 1..] == rest[1..]; } else { assert s == c; }
  }

  lemma {:induction false} ComponentsOfSlashed(stack: seq<Text>)
    requires AllPlain(stack) && stack != []
    ensures |Slashed(stack)| > 1 && Slashed(stack)[0] == '/'
    ensures Components(Slashed(stack)[1..]) == stack
  {
    hide Components, SegEnd, Slashed;
    var c, rest := stack[0], stack[1..];
    assert Plain(c) && stack == [c] + rest;
    SlashedCons(c, rest);
    SlashedNone();
    assert Slashed(stack)[1..] == c + Slashed(rest);
    if rest != [] { ComponentsOfSlashed(rest); }
    FirstComponent(c, Slashed(rest));
  }

  lemma {:induction false} SlashedOfComponents(s: Text)
    ensures Components(s) != [] && Slashed(Components(s)) == ['/'] + s
    decreases |s|
  {
    var j := SegEnd(s);
    if j < |s| {
      SlashedOfComponents(s[j + 1..]);
      CutAt(s, j);
      SlashedCons(s[..j], Components(s[j + 1..]));
    } else {
      SlashedCons(s, []);
    }
  }

  lemma CutAt(s: Text, j: nat)
    requires j < |s| && s[j] == '/'
    ensures ['/'] + s == ['/'] + s[..j] + (['/'] + s[j + 1..])
  { }

  lemma SlashedNone()
    ensures Slashed([]) == ""
  { }

  lemma SlashedCons(c: Text, rest: seq<Text>)
    ensures Slashed([c] + rest) == ['/'] + c + Slashed(rest)
  {
    assert ([c] + rest)[1..] == rest;
  }

  /** Normalised paths are exactly the joins of plain components. */
  lemma NormalisedIsJoin(s: Text)
    requires Normalised(s)
    ensures AllPlain(Parts(s)) && Join(Parts(s)) == s
  {
    if s != "/" {
      SlashedOfComponents(s[1..]);
      assert s == ['/'] + s[1..];
    }
  }

  lemma JoinIsNormalised(stack: seq<Text>)
    requires AllPlain(stack)
    ensures Normalised(Join(stack)) && Parts(Join(stack)) == stack
  {
    if stack != [] { ComponentsOfSlashed(stack); }
  }

  lemma {:induction false} ComponentsHaveNoSlash(s: Text)
    ensures forall c :: c in Components(s) ==> '/' !in c
  {
    var j := SegEnd(s);
    if j < |s| { ComponentsHaveNoSlash(s[j + 1..]); }
  }

  lemma {:induction false} ResolvePlain(cs: seq<Text>, stack: seq<Text>)
    requires AllPlain(stack) && forall c :: c in cs ==> '/' !in c
    ensures AllPlain(Resolve(cs, stack))
  {
    if cs != [] {
      assert cs[0] in cs;
      ResolvePlain(cs[1..], ResolveOne(stack, cs[0]));
    }
  }

  lemma {:induction false} ResolveOfPlain(cs: seq<Text>, stack: seq<Text>)
    requires AllPlain(cs)
    ensures Resolve(cs, stack) == stack + cs
  {
    if cs != [] {
      assert Plain(cs[0]);
      ResolveOfPlain(cs[1..], stack + [cs[0]]);
      assert stack + [cs[0]] + cs[1..] == stack + cs;
    } else {
      assert stack + cs == stack;
    }
  }

  /** The result is normalised, whatever the path looks like. */
  lemma AbsoluteIsNormalised(path: Text, pwd: Text)
    requires Normalised(pwd)
    ensures Normalised(Absolute(path, pwd))
  {
    if path != "" {
      NormalisedIsJoin(pwd);
      ComponentsHaveNoSlash(path);
      var base := if path[0] == '/' then [] else Parts(pwd);
      ResolvePlain(Components(path), base);
      JoinIsNormalised(Resolve(Components(path), base));
    }
  }

  /** A normalised path is left alone from any directory. */
  lemma AbsoluteFixesNormalised(path: Text, pwd: Text)
    requires Normalised(path)
    ensures Absolute(path, pwd) == path
  {
    var rest := path[1..];
    assert path == "" + path;
    FirstComponent("", path);
    assert ([""] + Components(rest))[1..] == Components(rest);
    if path == "/" {
      assert Components(rest) == [""];
      assert Resolve([""], []) == Resolve([""][1..], []) == [];
    } else {
      ResolveOfPlain(Components(rest), []);
      assert [] + Components(rest) == Components(rest);
      SlashedOfComponents(rest);
      assert path == ['/'] + rest;
    }
  }

  /** Normalising twice is normalising once. */
  lemma AbsoluteIdempotent(path: Text, pwd: Text, pwd': Text)
    requires Normalised(pwd)
    ensures Absolute(Absolute(path, pwd), pwd') == Absolute(path, pwd)
  {
    AbsoluteIsNormalised(path, pwd);
    AbsoluteFixesNormalised(Absolute(path, pwd), pwd');
  }

  // ------------------------------------------------------ the buffer machine

  /** The output buffer and the place at which the next character goes. */
  datatype Out = Out(buf: Text, ptr: nat)

  ghost predicate Ready(o: Out) { 1 <= o.ptr < |o.buf| && |o.buf| >= 2 && o.buf[0] == '/' }

  /** Enough buffer for `rest` to be taken from the start of a component, or from inside one. */
  ghost predicate FitsAtStart(o: Out, rest: Text) { Ready(o) && (if o.ptr == 1 then 0 else o.ptr) + |rest| + 2 <= |o.buf| }
  ghost predicate FitsInside(o: Out, rest: Text) { Ready(o) && o.ptr + |rest| + 1 <= |o.buf| }

  function LastSlash(b: Text, k: nat): (r: nat)
    requires k < |b| && b[0] == '/'
    ensures r <= k && b[r] == '/'
    ensures forall m :: r < m <= k ==> b[m] != '/'
  {
    if b[k] == '/' then k else LastSlash(b, k - 1)
  }

  function Pop(o: Out): (r: Out)
    requires Ready(o)
    ensures Ready(r) && |r.buf| == |o.buf| && r.ptr <= o.ptr
  {
    var q := LastSlash(o.buf, o.ptr);
    var p := if q == 0 then 1 else q;
    Out(o.buf[p := '\0'], p)
  }

  function Separate(o: Out): (r: Out)
    requires Ready(o) && (o.ptr > 1 ==> o.ptr + 1 < |o.buf|)
    ensures Ready(r) && |r.buf| == |o.buf| && o.ptr <= r.ptr <= o.ptr + 1 && (o.ptr == 1 ==> r == o)
  {
    if o.ptr - 1 != 0 && o.buf[o.ptr - 1] != '/' then Out(o.buf[o.ptr := '/'], o.ptr + 1) else o
  }

  function Write(o: Out, c: Text): (r: Out)
    requires Ready(o) && o.ptr + |c| < |o.buf|
    ensures Ready(r) && |r.buf| == |o.buf| && r.ptr == o.ptr + |c|
  {
    Out(o.buf[..o.ptr] + c + o.buf[o.ptr + |c|..], o.ptr + |c|)
  }

  function Apply(o: Out, c: Text): (r: Out)
    requires FitsAtStart(o, c)
    ensures Ready(r) && |r.buf| == |o.buf|
    ensures r.ptr <= o.ptr + |c| + if o.ptr == 1 then 0 else 1
  {
    if c == "" || c == "." then o
    else if c == ".." then Pop(o)
    else Write(Separate(o), c)
  }

  function Strip(t: Text): (r: Text)
  {
    if |t| > 1 && t[|t| - 1] == '/' then t[..|t| - 1] else t
  }

  /** The text produced from `rest`, read from the start of a component. */
  function FromStart(rest: Text, o: Out): (r: Text)
    requires FitsAtStart(o, rest)
    decreases |rest|
  {
    var j := SegEnd(rest);
    var o' := Apply(o, rest[..j]);
    if j == |rest| then Strip(o'.buf[..o'.ptr]) else FromStart(rest[j + 1..], o')
  }

  /** The same from inside a component that is being copied. */
  function FromInside(rest: Text, o: Out): (r: Text)
    requires FitsInside(o, rest)
  {
    var j := SegEnd(rest);
    var o' := Write(o, rest[..j]);
    if j == |rest| then Strip(o'.buf[..o'.ptr]) else FromStart(rest[j + 1..], o')
  }

  /** How many bytes of buffer the source needs. */
  function Needs(path: Text, pwd: Text): (n: nat)
  {
    if path == "" then |pwd| + 1 else if path[0] == '/' then |path| + 1 else |pwd| + |path| + 2
  }

  /** The buffer as the loop finds it. */
  function Begin(buf: Text, path: Text, pwd: Text): (o: Out)
    requires path != "" && Needs(path, pwd) <= |buf| && |path| + |buf| > 0
  {
    if path[0] == '/' then Out(buf[0 := '/'], 1) else Out(pwd + ['\0'] + buf[|pwd| + 1..], |pwd|)
  }

  /** The text that the source leaves behind, given what the buffer held before. */
  function Produced(buf: Text, path: Text, pwd: Text): (r: Text)
    requires Normalised(pwd) && Needs(path, pwd) <= |buf|
  {
    if path == "" then pwd
    else
      assert pwd == "/" || |pwd| > 0;
      FromStart(if path[0] == '/' then path[1..] else path, Begin(buf, path, pwd))
  }

  // ------------------------------------------- the machine against the fold

  /** No stale slash where a backward scan may start: up to `lim`, except at `hole`. */
  ghost predicate Clean(o: Out, lim: int, hole: int)
  {
    forall k :: 2 <= k < |o.buf| && o.ptr <= k <= lim && k != hole ==> o.buf[k] != '/'
  }

  ghost predicate Shows(o: Out, stack: seq<Text>, lim: int, hole: int)
  {
    Ready(o) && Clean(o, lim, hole) && AllPlain(stack) && o.buf[..o.ptr] == Join(stack)
  }

  /** No backward scan starts at `hole`. */
  ghost predicate PopsAway(rest: Text, stack: seq<Text>, hole: int)
    decreases |rest|
  {
    var j := SegEnd(rest);
    && (rest[..j] == ".." ==> |Join(stack)| != hole)
    && (j < |rest| ==> PopsAway(rest[j + 1..], ResolveOne(stack, rest[..j]), hole))
  }

  /** The limit is beyond every place where a scan may start. */
  ghost predicate Within(o: Out, rest: Text, lim: int) { (if o.ptr == 1 then 0 else o.ptr) + |rest| <= lim + 2 }

  lemma JoinLength(stack: seq<Text>)
    requires AllPlain(stack)
    ensures stack == [] <==> |Join(stack)| == 1
    ensures Strip(Join(stack)) == Join(stack)
  {
    if stack != [] {
      var init, c := stack[..|stack| - 1], stack[|stack| - 1];
      assert stack == init + [c];
      SlashedSnoc(init, c);
      assert Plain(c) && c[|c| - 1] in c;
    }
  }

  /** The backward scan cuts the text at its last slash, whatever lies beyond the text. */
  lemma PopCuts(o: Out, t: Text, c: Text)
    requires Ready(o) && o.buf[..o.ptr] == t + (['/'] + c) && '/' !in c && o.buf[o.ptr] != '/'
    ensures Pop(o).ptr == if t == "" then 1 else |t|
    ensures Pop(o).buf == o.buf[Pop(o).ptr := '\0']
  {
    var n, b := |t|, o.buf;
    assert b[n] == b[..o.ptr][n] == '/';
    forall m | n < m < o.ptr ensures b[m] != '/' {
      assert b[m] == b[..o.ptr][m] == c[m - n - 1];
    }
  }

  lemma CleanCut(o: Out, t: Text, c: Text, p: nat, lim: int, hole: int)
    requires Ready(o) && Clean(o, lim, hole) && o.buf[..o.ptr] == t + (['/'] + c) && '/' !in c
    requires p == if t == "" then 1 else |t|
    ensures Clean(Out(o.buf[p := '\0'], p), lim, hole)
    ensures o.buf[p := '\0'][..p] == if t == "" then "/" else t
  {
    forall m | |t| < m < o.ptr ensures o.buf[m] != '/' {
      assert o.buf[m] == o.buf[..o.ptr][m] == c[m - |t| - 1];
    }
    assert o.buf[..p] == o.buf[..o.ptr][..p];
  }

  lemma PopShows(o: Out, stack: seq<Text>, lim: int, hole: int)
    requires Shows(o, stack, lim, hole) && (o.ptr > 1 ==> o.ptr <= lim && o.ptr != hole)
    ensures Shows(Pop(o), ResolveOne(stack, ".."), lim, hole)
  {
    JoinLength(stack);
    if stack != [] {
      var init, c := stack[..|stack| - 1], stack[|stack| - 1];
      assert stack == init + [c];
      SlashedSnoc(init, c);
      var t := Slashed(init);
      assert Plain(c);
      assert t + ['/'] + c == t + (['/'] + c);
      PopCuts(o, t, c);
      CleanCut(o, t, c, Pop(o).ptr, lim, hole);
      if init != [] { ComponentsOfSlashed(init); }
    }
  }

  lemma WriteShows(o: Out, stack: seq<Text>, c: Text, lim: int, hole: int)
    requires Shows(o, stack, lim, hole) && Plain(c) && FitsAtStart(o, c)
    ensures Shows(Write(Separate(o), c), stack + [c], lim, hole)
  {
    JoinLength(stack);
    SlashedSnoc(stack, c);
    var t := Join(stack);
    if stack != [] {
      assert t[|t| - 1] != '/';
      assert o.buf[o.ptr - 1] == o.buf[..o.ptr][o.ptr - 1];
    }
    var s := Separate(o);
    assert s.buf[..s.ptr] == Slashed(stack) + ['/'];
    assert Write(s, c).buf[..s.ptr + |c|] == s.buf[..s.ptr] + c;
  }

  lemma ApplyShows(o: Out, stack: seq<Text>, c: Text, lim: int, hole: int)
    requires Shows(o, stack, lim, hole) && '/' !in c && FitsAtStart(o, c)
    requires c == ".." && o.ptr > 1 ==> o.ptr <= lim && o.ptr != hole
    ensures Shows(Apply(o, c), ResolveOne(stack, c), lim, hole)
  {
    if c == ".." { PopShows(o, stack, lim, hole); }
    else if c != "" && c != "." { WriteShows(o, stack, c, lim, hole); }
  }

  lemma ShownText(o: Out, stack: seq<Text>, lim: int, hole: int)
    requires Shows(o, stack, lim, hole)
    ensures 1 <= o.ptr <= |o.buf| && AllPlain(stack) && o.buf[..o.ptr] == Join(stack) && o.ptr == |Join(stack)|
  { }

  /** Taking a component at a time in the buffer is folding over the components. */
  lemma {:induction false} MachineIsFold(rest: Text, o: Out, stack: seq<Text>, lim: int, hole: int)
    requires Shows(o, stack, lim, hole) && FitsAtStart(o, rest) && Within(o, rest, lim) && PopsAway(rest, stack, hole)
    ensures FromStart(rest, o) == Join(Resolve(Components(rest), stack))
    decreases |rest|
  {
    hide Shows, Apply, SegEnd, ResolveOne;
    var j := SegEnd(rest);
    var c := rest[..j];
    var o', stack' := Apply(o, c), ResolveOne(stack, c);
    ShownText(o, stack, lim, hole);
    ApplyShows(o, stack, c, lim, hole);
    ShownText(o', stack', lim, hole);
    ApplyGrows(o, c);
    if j == |rest| {
      assert c == rest;
      assert [c][1..] == [];
      assert Resolve([c], stack) == Resolve([], stack');
      JoinLength(stack');
    } else {
      MachineIsFold(rest[j + 1..], o', stack', lim, hole);
      assert Components(rest)[1..] == Components(rest[j + 1..]);
    }
  }

  /** A component adds no more to the text than it takes from the path. */
  lemma ApplyGrows(o: Out, c: Text)
    requires FitsAtStart(o, c)
    ensures Apply(o, c).ptr <= (if o.ptr == 1 then 0 else o.ptr) + |c| + 1
    ensures o.ptr == 1 && (c == "" || c == "." || c == "..") ==> Apply(o, c).ptr == 1
  { }

  lemma {:induction false} NoHole(rest: Text, stack: seq<Text>, hole: int)
    requires hole <= 0
    ensures PopsAway(rest, stack, hole)
    decreases |rest|
  {
    var j := SegEnd(rest);
    if j < |rest| { NoHole(rest[j + 1..], ResolveOne(stack, rest[..j]), hole); }
  }

  /** The bytes of a fresh buffer at which a backward scan may stop too early. */
  ghost predicate NoStaleSlash(buf: Text, path: Text, pwd: Text)
  {
    forall k :: 2 <= k <= |buf| - 4 && (path == "" || path[0] == '/' || |pwd| < k) ==> buf[k] != '/'
  }

  lemma BeginFits(buf: Text, path: Text, pwd: Text)
    requires Normalised(pwd) && path != "" && Needs(path, pwd) <= |buf|
    ensures FitsAtStart(Begin(buf, path, pwd), if path[0] == '/' then path[1..] else path)
  { }

  lemma CleanBufferSuffices(buf: Text, path: Text, pwd: Text)
    requires Normalised(pwd) && Needs(path, pwd) <= |buf| && NoStaleSlash(buf, path, pwd)
    ensures Produced(buf, path, pwd) == Absolute(path, pwd)
  {
    hide Resolve, Components, PopsAway, FromStart;
    if path != "" {
      var o := Begin(buf, path, pwd);
      BeginFits(buf, path, pwd);
      if path[0] == '/' {
        NoHole(path[1..], [], 0);
        assert o.buf[..1] == "/";
        MachineIsFold(path[1..], o, [], |buf| - 4, 0);
        FirstEmpty(path, []);
      } else {
        NormalisedIsJoin(pwd);
        JoinLength(Parts(pwd));
        NoHole(path, Parts(pwd), 0);
        assert o.buf[..|pwd|] == pwd;
        MachineIsFold(path, o, Parts(pwd), |buf| - 4, 0);
      }
    }
  }

  /** The empty component in front of the first slash counts for nothing. */
  lemma FirstEmpty(path: Text, stack: seq<Text>)
    requires path != "" && path[0] == '/'
    ensures Resolve(Components(path), stack) == Resolve(Components(path[1..]), stack)
  {
    hide Components;
    assert "" + path == path;
    FirstComponent("", path);
    assert ([""] + Components(path[1..]))[1..] == Components(path[1..]);
  }

  function Letters(n: nat): (r: Text)
    ensures |r| == n && forall k :: 0 <= k < n ==> r[k] == 'a'
  {
    seq(n, _ => 'a')
  }

  /** A path that a slash left at `k` spoils. */
  function Spoilt(k: nat): (r: Text)
    requires k >= 2
  {
    "/" + (Letters(k - 1) + "/..")
  }

  /** By its components the path names the root. */
  lemma SpoiltNamesRoot(k: nat)
    requires k >= 2
    ensures Absolute(Spoilt(k), "/") == "/"
  {
    hide SegEnd, Components, Resolve;
    var c := Letters(k - 1);
    assert c[0] == 'a';
    TwoComponents(c, "..");
    assert ['/'] + (c + (['/'] + "..")) == Spoilt(k);
    CancelOut(c);
  }

  lemma TwoComponents(c: Text, d: Text)
    requires '/' !in c && '/' !in d
    ensures Components(['/'] + (c + (['/'] + d))) == ["", c, d]
  {
    hide SegEnd, Components;
    FirstComponent(d, []);
    assert d + [] == d;
    var t := ['/'] + d;
    FirstComponent(c, t);
    assert t[1..] == d;
    var u := ['/'] + (c + t);
    FirstComponent([], u);
    assert [] + u == u && u[1..] == c + t;
  }

  lemma CancelOut(c: Text)
    requires Plain(c)
    ensures Resolve(["", c, ".."], []) == []
  {
    assert ["", c, ".."][1..] == [c, ".."] && [c, ".."][1..] == [".."] && [".."][1..] == [];
    assert Resolve([], []) == [] && ResolveOne([c], "..") == [];
    assert Resolve([".."], [c]) == Resolve([], []);
    assert Resolve([c, ".."], []) == Resolve([".."], [] + [c]);
    assert Resolve(["", c, ".."], []) == Resolve([c, ".."], []);
  }

  /** The machine takes the stale slash behind the letters for the one in front of them. */
  lemma StaleSlashStops(o: Out, c: Text)
    requires c != "" && (forall k :: 0 <= k < |c| ==> c[k] == 'a') && FitsAtStart(o, c + "/..")
    requires var s := Separate(o); s.ptr + |c| < |s.buf| && s.buf[s.ptr + |c|] == '/'
    ensures FromStart(c + "/..", o) == Separate(o).buf[..Separate(o).ptr] + c
  {
    hide FromStart, FitsAtStart, Ready, Separate, Write, Apply;
    assert c + "/.." == c + (['/'] + "..");
    FirstTaken(c, "..", o);
    TakesLetters(o, c);
    var s := Separate(o);
    WriteEnds(s, c);
    StopsHere(Write(s, c), s.buf[..s.ptr] + c);
  }

  /** The machine takes a component and the slash behind it. */
  lemma FirstTaken(c: Text, rest: Text, o: Out)
    requires '/' !in c && FitsAtStart(o, c + (['/'] + rest))
    ensures FitsAtStart(o, c) && FitsAtStart(Apply(o, c), rest)
    ensures FromStart(c + (['/'] + rest), o) == FromStart(rest, Apply(o, c))
  {
    hide Apply;
    ApplyGrows(o, c);
    FirstComponent(c, ['/'] + rest);
    var all := c + (['/'] + rest);
    assert all[..|c|] == c && all[|c| + 1..] == rest;
  }

  lemma TakesLetters(o: Out, c: Text)
    requires c != "" && (forall k :: 0 <= k < |c| ==> c[k] == 'a') && FitsAtStart(o, c)
    ensures Ready(o) && (o.ptr > 1 ==> o.ptr + 1 < |o.buf|)
    ensures Ready(Separate(o)) && Separate(o).ptr + |c| < |Separate(o).buf| && Apply(o, c) == Write(Separate(o), c)
    ensures c[|c| - 1] != '/'
  {
    assert c[0] == 'a' && c[|c| - 1] == 'a';
  }

  lemma WriteEnds(s: Out, c: Text)
    requires Ready(s) && s.ptr + |c| < |s.buf|
    ensures var o := Write(s, c); o.buf[..o.ptr] == s.buf[..s.ptr] + c && o.buf[o.ptr] == s.buf[s.ptr + |c|]
  { }

  lemma StopsHere(o: Out, t: Text)
    requires FitsAtStart(o, "..") && o.buf[o.ptr] == '/' && t == o.buf[..o.ptr] && t[|t| - 1] != '/'
    ensures FromStart("..", o) == t
  {
    hide LastSlash;
    FirstComponent("..", "");
    assert ".." + "" == ".." && ".."[..2] == "..";
    var o2 := Pop(o);
    assert o2.ptr == o.ptr && o2.buf[..o2.ptr] == o.buf[..o.ptr];
  }

  lemma StaleSlashSpoils(buf: Text, k: nat, pwd: Text)
    requires 2 <= k <= |buf| - 4 && buf[k] == '/' && Normalised(pwd)
    ensures Needs(Spoilt(k), pwd) <= |buf|
    ensures Produced(buf, Spoilt(k), pwd) == "/" + Letters(k - 1)
    ensures Absolute(Spoilt(k), pwd) == "/"
  {
    hide FromStart;
    SpoiltNamesRoot(k);
    var path := Spoilt(k);
    assert path[1..] == Letters(k - 1) + "/..";
    StaleSlashStops(Begin(buf, path, pwd), Letters(k - 1));
  }

  /** A buffer serves every absolute path that fits exactly when no slash lies in wait. */
  lemma BufferServesExactly(buf: Text, pwd: Text)
    requires |buf| >= 2 && Normalised(pwd)
    ensures (forall path: Text | path != "" && path[0] == '/' && Needs(path, pwd) <= |buf| ::
               Produced(buf, path, pwd) == Absolute(path, pwd))
            <==> (forall k :: 2 <= k <= |buf| - 4 ==> buf[k] != '/')
  {
    if k :| 2 <= k <= |buf| - 4 && buf[k] == '/' {
      StaleSlashSpoils(buf, k, pwd);
      var path := Spoilt(k);
      assert path[0] == '/';
      assert |Produced(buf, path, pwd)| == k && |Absolute(path, pwd)| == 1;
    } else {
      forall path: Text | path != "" && path[0] == '/' && Needs(path, pwd) <= |buf|
        ensures Produced(buf, path, pwd) == Absolute(path, pwd)
      {
        CleanBufferSuffices(buf, path, pwd);
      }
    }
  }

  // --------------------------------------------------- relative paths, exactly

  /** Length of the last directory of the working directory. */
  function LastLength(pwd: Text): (n: nat)
  {
    var p := Parts(pwd);
    if p == [] then 0 else |p[|p| - 1]|
  }

  /**
    * Where a slash in the buffer spoils some relative path.  Just behind the working directory and
    * its terminator it takes a path that leaves the last directory for one with a longer name.
    */
  ghost predicate Waits(buf: Text, pwd: Text, k: int)
  {
    && 2 <= k < |buf| && buf[k] == '/'
    && if pwd == "/" then k <= |buf| - 5
       else (|pwd| + 2 <= k <= |buf| - 4) || (k == |pwd| + 1 && |pwd| + LastLength(pwd) + 9 <= |buf|)
  }

  lemma {:induction false} SlashedLonger(base: seq<Text>, stack: seq<Text>)
    requires AllPlain(stack) && base <= stack && base != stack
    ensures |Slashed(stack)| >= |Slashed(base)| + 2
  {
    var more := stack[|base|..];
    assert stack == base + more;
    SlashedConcat(base, more);
    assert Plain(more[0]);
  }

  lemma LastOff(stack: seq<Text>)
    requires stack != []
    ensures |Slashed(stack)| == |Slashed(stack[..|stack| - 1])| + 1 + |stack[|stack| - 1]|
  {
    hide Slashed;
    var init, last := stack[..|stack| - 1], stack[|stack| - 1];
    assert stack == init + [last];
    SlashedSnoc(init, last);
  }

  /** One component of a short path, above the working directory or after leaving it. */
  lemma ShortStep(rest: Text, stack: seq<Text>, base: seq<Text>, c: Text)
    requires AllPlain(base) && AllPlain(stack) && base != [] && '/' !in c && |c| <= |rest|
    requires (base <= stack && |rest| <= |base[|base| - 1]| + 6) || |Slashed(stack)| + |rest| <= |Slashed(base)| + 2
    ensures c == ".." ==> |Join(stack)| != |Slashed(base)| + 1
    ensures var stack', left := ResolveOne(stack, c), |rest| - |c| - 1;
            && AllPlain(stack')
            && ((base <= stack' && left <= |base[|base| - 1]| + 6) || |Slashed(stack')| + left <= |Slashed(base)| + 2)
  {
    LastOff(base);
    assert Plain(base[|base| - 1]);
    if base <= stack && base != stack { SlashedLonger(base, stack); }
    if c == ".." && stack != [] {
      LastOff(stack);
      assert base <= stack && base != stack ==> base <= stack[..|stack| - 1];
    } else if c != "" && c != "." && c != ".." {
      SlashedSnoc(stack, c);
    }
  }

  lemma {:induction false} ShortPathsPopAway(rest: Text, stack: seq<Text>, base: seq<Text>)
    requires AllPlain(base) && AllPlain(stack) && base != []
    requires (base <= stack && |rest| <= |base[|base| - 1]| + 6) || |Slashed(stack)| + |rest| <= |Slashed(base)| + 2
    ensures PopsAway(rest, stack, |Slashed(base)| + 1)
    decreases |rest|
  {
    hide Join, Slashed, ResolveOne, SegEnd;
    var j := SegEnd(rest);
    ShortStep(rest, stack, base, rest[..j]);
    if j < |rest| { ShortPathsPopAway(rest[j + 1..], ResolveOne(stack, rest[..j]), base); }
  }

  lemma NoWaitSuffices(buf: Text, path: Text, pwd: Text)
    requires Normalised(pwd) && path != "" && path[0] != '/' && Needs(path, pwd) <= |buf|
    requires forall k :: !Waits(buf, pwd, k)
    ensures Produced(buf, path, pwd) == Absolute(path, pwd)
  {
    hide FromStart, Resolve, Components, Waits, PopsAway;
    var o, p := Begin(buf, path, pwd), Parts(pwd);
    NormalisedIsJoin(pwd);
    JoinLength(p);
    BeginFits(buf, path, pwd);
    assert o.buf[..|pwd|] == pwd;
    if pwd == "/" {
      BehindRoot(buf, o);
      NoHole(path, p, 0);
      MachineIsFold(path, o, p, |buf| - 5, 0);
    } else {
      var hole := if |pwd| + LastLength(pwd) + 9 <= |buf| then 0 else |pwd| + 1;
      BehindText(buf, pwd, o, hole);
      if hole == 0 { NoHole(path, p, 0); } else { ShortPathsPopAway(path, p, p); }
      MachineIsFold(path, o, p, |buf| - 4, hole);
    }
  }

  lemma BehindRoot(buf: Text, o: Out)
    requires |buf| >= 4 && o == Out("/" + ['\0'] + buf[2..], 1) && forall k :: !Waits(buf, "/", k)
    ensures Clean(o, |buf| - 5, 0)
  {
    forall k | 2 <= k <= |buf| - 5 ensures o.buf[k] != '/' {
      assert !Waits(buf, "/", k);
    }
  }

  lemma BehindText(buf: Text, pwd: Text, o: Out, hole: int)
    requires pwd != "/" && |pwd| + 1 <= |buf| && o == Out(pwd + ['\0'] + buf[|pwd| + 1..], |pwd|)
    requires hole == if |pwd| + LastLength(pwd) + 9 <= |buf| then 0 else |pwd| + 1
    requires forall k :: !Waits(buf, pwd, k)
    ensures Clean(o, |buf| - 4, hole)
  {
    forall k | 2 <= k < |buf| && |pwd| <= k <= |buf| - 4 && k != hole ensures o.buf[k] != '/' {
      assert !Waits(buf, pwd, k);
    }
  }

  /** The letters that end at `k`, behind the working directory. */
  function Behind(pwd: Text, k: nat): (c: Text)
    requires k >= |pwd| + 2 || (pwd == "/" && k >= 2)
  {
    Letters(if pwd == "/" then k - 1 else k - |pwd| - 1)
  }

  lemma WaitingBehind(buf: Text, pwd: Text, k: nat)
    requires Normalised(pwd) && Waits(buf, pwd, k) && (pwd == "/" || k >= |pwd| + 2)
    ensures Needs(Behind(pwd, k) + "/..", pwd) <= |buf|
    ensures |Produced(buf, Behind(pwd, k) + "/..", pwd)| == k
    ensures Absolute(Behind(pwd, k) + "/..", pwd) == pwd
  {
    hide FromStart, Resolve, Components, Parts, Join, Strip, Normalised;
    var c := Behind(pwd, k);
    var path, o := c + "/..", Begin(buf, c + "/..", pwd);
    assert c[0] == 'a' && path[0] == 'a';
    NormalisedIsJoin(pwd);
    JoinLength(Parts(pwd));
    BeginFits(buf, path, pwd);
    EndsPlain(pwd);
    assert pwd != "/" ==> o.buf[|pwd| - 1] == pwd[|pwd| - 1];
    StaleSlashStops(o, c);
    UpAgain(c, Parts(pwd));
  }

  lemma EndsPlain(pwd: Text)
    requires Normalised(pwd)
    ensures pwd != "/" ==> |pwd| >= 2 && pwd[|pwd| - 1] != '/'
  {
    NormalisedIsJoin(pwd);
    JoinLength(Parts(pwd));
  }

  /** Into a directory and out of it again. */
  lemma UpAgain(c: Text, stack: seq<Text>)
    requires Plain(c)
    ensures Components(c + "/..") == [c, ".."] && Resolve([c, ".."], stack) == stack
  {
    hide SegEnd;
    FirstComponent(c, "/..");
    FirstComponent("..", "");
    assert ".." + "" == ".." && "/.."[1..] == "..";
    assert [c, ".."][1..] == [".."] && [".."][1..] == [];
    assert Resolve([".."], stack + [c]) == Resolve([], stack);
  }

  /** Out of the last directory, into one whose name is a letter longer, and out of it again. */
  function Beside(pwd: Text): (c: Text) { Letters(LastLength(pwd) + 1) }

  lemma WaitingBeside(buf: Text, pwd: Text)
    requires Normalised(pwd) && Waits(buf, pwd, |pwd| + 1) && pwd != "/"
    ensures Needs("../" + (Beside(pwd) + "/.."), pwd) <= |buf|
    ensures |Produced(buf, "../" + (Beside(pwd) + "/.."), pwd)| == |pwd| + 1
    ensures |Absolute("../" + (Beside(pwd) + "/.."), pwd)| <= |pwd|
  {
    hide FromStart, Resolve, Components, Parts;
    var c, p := Beside(pwd), Parts(pwd);
    var rest := c + "/..";
    var path := "../" + rest;
    NormalisedIsJoin(pwd);
    JoinLength(p);
    BeginFits(buf, path, pwd);
    FirstUp(rest, Begin(buf, path, pwd));
    BesideInBuffer(buf, pwd, Begin(buf, path, pwd));
    var init := p[..|p| - 1];
    assert c[0] == 'a';
    UpAgain(c, init);
    UpAcross(rest, p);
    LastOff(p);
    JoinLength(init);
  }

  lemma BesideInBuffer(buf: Text, pwd: Text, o: Out)
    requires Normalised(pwd) && pwd != "/" && Waits(buf, pwd, |pwd| + 1)
    requires o == Out(pwd + ['\0'] + buf[|pwd| + 1..], |pwd|)
    requires Ready(o) && FitsAtStart(Pop(o), Beside(pwd) + "/..")
    ensures |FromStart(Beside(pwd) + "/..", Pop(o))| == |pwd| + 1
  {
    hide FromStart, Resolve, Components, Parts, Slashed, Pop, Apply, SegEnd;
    var c, p := Beside(pwd), Parts(pwd);
    NormalisedIsJoin(pwd);
    JoinLength(p);
    assert o.buf[..|pwd|] == pwd;
    LastOff(p);
    var init, last := p[..|p| - 1], p[|p| - 1];
    assert p == init + [last] && Plain(last);
    SlashedSnoc(init, last);
    var t := Slashed(init);
    assert t + ['/'] + last == t + (['/'] + last);
    PopCuts(o, t, last);
    TextEnd(o, t, last, init);
    StaleSlashStops(Pop(o), c);
  }

  lemma TextEnd(o: Out, t: Text, last: Text, init: seq<Text>)
    requires Ready(o) && o.buf[..o.ptr] == t + (['/'] + last) && t == Slashed(init) && AllPlain(init)
    ensures t != "" ==> |t| > 1 && o.buf[|t| - 1] != '/'
  {
    if init != [] {
      JoinLength(init);
      ComponentsOfSlashed(init);
      assert o.buf[|t| - 1] == o.buf[..o.ptr][|t| - 1] == t[|t| - 1];
    }
  }

  lemma FirstUp(rest: Text, o: Out)
    requires FitsAtStart(o, "../" + rest)
    ensures FitsAtStart(Pop(o), rest) && FromStart("../" + rest, o) == FromStart(rest, Pop(o))
  {
    assert "../" + rest == ".." + (['/'] + rest);
    FirstTaken("..", rest, o);
  }

  lemma UpAcross(rest: Text, p: seq<Text>)
    requires p != []
    ensures Resolve(Components("../" + rest), p) == Resolve(Components(rest), p[..|p| - 1])
  {
    assert "../" + rest == ".." + (['/'] + rest);
    FirstComponent("..", ['/'] + rest);
    assert (['/'] + rest)[1..] == rest;
    assert ([".."] + Components(rest))[1..] == Components(rest);
  }

  /** A buffer serves every relative path that fits exactly when no slash waits behind the directory. */
  lemma BufferServesRelativeExactly(buf: Text, pwd: Text)
    requires Normalised(pwd)
    ensures (forall path: Text | path != "" && path[0] != '/' && Needs(path, pwd) <= |buf| ::
               Produced(buf, path, pwd) == Absolute(path, pwd))
            <==> (forall k :: !Waits(buf, pwd, k))
  {
    hide Waits, Produced, Absolute, Normalised, Needs;
    if k :| Waits(buf, pwd, k) {
      WaitsSpoil(buf, pwd, k);
    } else {
      forall path: Text | path != "" && path[0] != '/' && Needs(path, pwd) <= |buf|
        ensures Produced(buf, path, pwd) == Absolute(path, pwd)
      {
        NoWaitSuffices(buf, path, pwd);
      }
    }
  }

  lemma WaitsSpoil(buf: Text, pwd: Text, k: int)
    requires Normalised(pwd) && Waits(buf, pwd, k)
    ensures exists path: Text ::
              path != "" && path[0] != '/' && Needs(path, pwd) <= |buf| && Produced(buf, path, pwd) != Absolute(path, pwd)
  {
    hide Waits, Produced, Absolute, Normalised, Needs;
    WaitsFacts(buf, pwd, k);
    if pwd == "/" || k >= |pwd| + 2 {
      WaitingBehind(buf, pwd, k);
      var path := Behind(pwd, k) + "/..";
      assert path[0] == Behind(pwd, k)[0] == 'a';
      assert |Produced(buf, path, pwd)| == k && |Absolute(path, pwd)| == |pwd| < k;
    } else {
      WaitingBeside(buf, pwd);
      var path := "../" + (Beside(pwd) + "/..");
      assert path[0] == '.';
      assert |Produced(buf, path, pwd)| != |Absolute(path, pwd)|;
    }
  }

  lemma WaitsFacts(buf: Text, pwd: Text, k: int)
    requires Waits(buf, pwd, k)
    ensures 2 <= k && (pwd == "/" || k >= |pwd| + 2 || k == |pwd| + 1)
  { }

  // ------------------------------------------------------------ the source's loop

  /** The character at `i` of a NUL-terminated string. */
  function Peek(s: Text, i: nat): (c: char) { if i < |s| then s[i] else '\0' }

  method StrCpy(out: array<char>, s: Text)
    requires |s| + 1 <= out.Length
    modifies out
    ensures out[..] == s + ['\0'] + old(out[..])[|s| + 1..]
  {
    for i := 0 to |s|
      invariant forall k :: 0 <= k < i ==> out[k] == s[k]
      invariant forall k :: i <= k < out.Length ==> out[k] == old(out[k])
    {
      out[i] := s[i];
    }
    out[|s|] := '\0';
  }

  /** The scan back to the nearest slash, and the step forward over the root's. */
  method BackUp(out: array<char>, start: nat) returns (ptr: nat)
    requires Ready(Out(out[..], start))
    ensures ptr == Pop(Out(out[..], start)).ptr
  {
    ptr := start;
    while out[ptr] != '/'
      invariant ptr <= start
      decreases ptr
      invariant LastSlash(out[..], ptr) == LastSlash(out[..], start)
    {
      ptr := ptr - 1;
    }
    if ptr == 0 { ptr := 1; }
  }

  lemma InsideStep(rest: Text, o: Out)
    requires FitsInside(o, rest) && rest != "" && rest[0] != '/'
    ensures o.ptr + 1 < |o.buf| && FitsInside(Out(o.buf[o.ptr := rest[0]], o.ptr + 1), rest[1..])
    ensures FromInside(rest, o) == FromInside(rest[1..], Out(o.buf[o.ptr := rest[0]], o.ptr + 1))
  {
    hide FromStart, Strip;
    var j := SegEnd(rest);
    assert rest[1..][..j - 1] == rest[1..j];
    WriteStep(o, rest[0], rest[1..j]);
    assert rest[..j] == [rest[0]] + rest[1..j];
    if j < |rest| { assert rest[1..][j..] == rest[j + 1..]; }
  }

  lemma WriteStep(o: Out, c: char, cs: Text)
    requires Ready(o) && o.ptr + |cs| + 1 < |o.buf| && (o.ptr > 0 || c == '/')
    ensures Write(o, [c] + cs) == Write(Out(o.buf[o.ptr := c], o.ptr + 1), cs)
  {
    var o1 := Out(o.buf[o.ptr := c], o.ptr + 1);
    assert Write(o, [c] + cs).buf == Write(o1, cs).buf;
  }

  lemma InsideAtSlash(rest: Text, o: Out)
    requires FitsInside(o, rest) && rest != "" && rest[0] == '/'
    ensures FitsAtStart(o, rest[1..]) && FromInside(rest, o) == FromStart(rest[1..], o)
  {
    hide FromStart, Strip;
    assert SegEnd(rest) == 0 && rest[..0] == "";
    WriteNothing(o);
  }

  lemma WriteNothing(o: Out)
    requires Ready(o)
    ensures Write(o, "") == o
  { }

  lemma InsideAtEnd(o: Out)
    requires FitsInside(o, "")
    ensures FromInside("", o) == Strip(o.buf[..o.ptr])
  {
    assert ""[..0] == "";
    WriteNothing(o);
  }

  /** The slash put behind the text is taken off again at the end. */
  lemma StripSeparated(o: Out)
    requires Ready(o) && (o.ptr > 1 ==> o.ptr + 1 < |o.buf|)
    ensures Strip(Separate(o).buf[..Separate(o).ptr]) == Strip(o.buf[..o.ptr])
  {
    assert Separate(o) != o ==> Separate(o).buf[..o.ptr] == o.buf[..o.ptr];
  }

  /** How the start of a component goes on inside one. */
  lemma StartStep(rest: Text, o: Out)
    requires FitsAtStart(o, rest)
    ensures FitsInside(Separate(o), rest)
    ensures var c := rest[..SegEnd(rest)];
      FromStart(rest, o) ==
        if c == ".." then FromInside(rest[2..], Pop(o))
        else if c == "." then FromInside(rest[1..], o)
        else if c == "" && rest != "" then FromInside(rest, o)
        else FromInside(rest, Separate(o))
  {
    hide Strip, LastSlash, SegEnd;
    var j := SegEnd(rest);
    var c := rest[..j];
    if c == ".." || c == "." || (c == "" && rest != "") {
      var o' := Apply(o, c);
      if j == |rest| {
        assert rest[|c|..] == "";
        InsideAtEnd(o');
      } else {
        assert rest[|c|..][1..] == rest[j + 1..];
        InsideAtSlash(rest[|c|..], o');
      }
    } else if rest == "" {
      InsideAtEnd(Separate(o));
      StripSeparated(o);
    }
  }

  /** A comparison that includes the end: what is left of `s` is `t`. */
  predicate Ends(s: Text, i: nat, t: Text) { i <= |s| && s[i..] == t }
  /** A comparison of the first characters: what is left of `s` starts with `t`. */
  predicate Starts(s: Text, i: nat, t: Text) { i <= |s| && t <= s[i..] }

  /** The tests at the start of a component, in terms of the component. */
  lemma Tests(path: Text, i: nat)
    requires i <= |path|
    ensures var rest := path[i..]; var j := SegEnd(rest); var c := rest[..j];
      && (Peek(path, i) == '/' <==> c == "" && rest != "")
      && (Ends(path, i, ".") || Starts(path, i, "./") <==> c == ".")
      && (Ends(path, i, "..") || Starts(path, i, "../") <==> c == "..")
  {
    var rest := path[i..];
    var j := SegEnd(rest);
    if Ends(path, i, ".") || Starts(path, i, "./") { SegEndIs(rest, 1); }
    if Ends(path, i, "..") || Starts(path, i, "../") { SegEndIs(rest, 2); }
  }

  lemma NothingLeft(rest: Text, o: Out)
    requires FitsInside(o, rest) && (rest == "" || rest == "/")
    ensures FromInside(rest, o) == Strip(o.buf[..o.ptr])
  {
    if rest == "" { InsideAtEnd(o); } else { InsideAtSlash(rest, o); }
  }

  /** The code behind the label `first_run`; `term` says that it jumps to the label of that name. */
  method AtComponent(out: array<char>, path: Text, i: nat, start: nat) returns (ptr: nat, j: nat, term: bool)
    requires i <= |path| && FitsAtStart(Out(out[..], start), path[i..])
    modifies out
    ensures i <= j <= |path| && Ready(Out(out[..], ptr))
    ensures term ==> Strip(out[..ptr]) == FromStart(path[i..], old(Out(out[..], start)))
    ensures !term ==> FitsInside(Out(out[..], ptr), path[j..])
    ensures !term ==> FromInside(path[j..], Out(out[..], ptr)) == FromStart(path[i..], old(Out(out[..], start)))
  {
    hide FromStart, FromInside, Strip, LastSlash;
    ghost var o, rest := Out(out[..], start), path[i..];
    Tests(path, i);
    StartStep(rest, o);
    ptr, j, term := start, i, false;
    if Peek(path, i) == '/' { return; }
    if Ends(path, i, ".") || Ends(path, i, "./") {
      NothingLeft(rest[1..], o);
      term := true;
      return;
    }
    if Ends(path, i, "..") || Ends(path, i, "../") {
      ptr := BackUp(out, ptr);
      NothingLeft(rest[2..], Pop(o));
      assert Pop(o).buf[..ptr] == out[..ptr];
      term := true;
      return;
    }
    if Starts(path, i, "../") {
      ptr := BackUp(out, ptr);
      j := i + 2;
      out[ptr] := '\0';
      assert out[..] == Pop(o).buf && path[j..] == rest[2..];
      return;
    }
    if Starts(path, i, "./") {
      j := i + 1;
      assert path[j..] == rest[1..];
      return;
    }
    if ptr - 1 != 0 && out[ptr - 1] != '/' {
      out[ptr] := '/';
      ptr := ptr + 1;
    }
    assert Out(out[..], ptr) == Separate(o);
  }

  /** The loop, entered by the jump to `first_run`. */
  method Normalise(out: array<char>, path: Text, start: nat, at: nat)
    requires start <= |path| && FitsAtStart(Out(out[..], at), path[start..])
    modifies out
    ensures Holds(out[..], FromStart(path[start..], old(Out(out[..], at))))
  {
    hide FromStart, FromInside, SegEnd, FitsInside, FitsAtStart, Strip, Holds;
    ghost var want := FromStart(path[start..], Out(out[..], at));
    var ptr: nat, i: nat, term: bool := AtComponent(out, path, start, at);
    while !term
      invariant i <= |path| && Ready(Out(out[..], ptr))
      invariant !term ==> FitsInside(Out(out[..], ptr), path[i..]) && FromInside(path[i..], Out(out[..], ptr)) == want
      invariant term ==> Strip(out[..ptr]) == want
      decreases |path| - i, if term then 0 else 1
    {
      ghost var o := Out(out[..], ptr);
      if i == |path| {
        InsideAtEnd(o);
        term := true;
      } else if path[i] == '/' {
        InsideAtSlash(path[i..], o);
        assert path[i..][1..] == path[i + 1..];
        ptr, i, term := AtComponent(out, path, i + 1, ptr);
      } else {
        InsideStep(path[i..], o);
        assert path[i..][1..] == path[i + 1..];
        out[ptr] := path[i];
        assert out[..] == o.buf[o.ptr := path[i]];
        ptr, i := ptr + 1, i + 1;
      }
    }
    Terminate(out, ptr);
  }

  /** A slash at the end is taken off. */
  method Terminate(out: array<char>, end: nat)
    requires Ready(Out(out[..], end))
    modifies out
    ensures Holds(out[..], old(Strip(out[..end])))
  {
    var ptr := end;
    if out[ptr - 1] == '/' && ptr - 1 != 0 { ptr := ptr - 1; }
    out[ptr] := '\0';
  }

  method GetAbsolutePath(out: array<char>, path: Text, pwd: Text)
    requires Normalised(pwd) && Needs(path, pwd) <= out.Length
    modifies out
    ensures Holds(out[..], Produced(old(out[..]), path, pwd))
    ensures NoStaleSlash(old(out[..]), path, pwd) ==> Holds(out[..], Absolute(path, pwd))
  {
    hide FromStart, FromInside, Absolute, Normalised, Separate, Pop;
    ghost var want := Produced(out[..], path, pwd);
    if NoStaleSlash(out[..], path, pwd) { CleanBufferSuffices(out[..], path, pwd); }
    if path == "" {
      StrCpy(out, pwd);
      return;
    }
    BeginFits(out[..], path, pwd);
    if path[0] != '/' {
      StrCpy(out, pwd);
      assert path[0..] == path;
      Normalise(out, path, 0, |pwd|);
    } else {
      out[0] := '/';
      Normalise(out, path, 1, 1);
    }
  }

  /** The buffer holds `t` as a NUL-terminated string. */
  predicate Holds(buf: Text, t: Text) { |t| < |buf| && buf[..|t|] == t && buf[|t|] == '\0' }

  // ------------------------------------------------------------- mount points

  /** The test of the source: `name` is a prefix that ends at a slash or at the end. */
  predicate Mounted(path: Text, name: Text)
  {
    name <= path && (Peek(path, |name|) == '/' || Peek(path, |name|) == '\0' || name == "/")
  }

  /** The part of the path inside a mount point whose name has length `n`. */
  function LocalPath(path: Text, n: nat): (r: Text)
    requires n <= |path|
  {
    var local := if n > 1 then path[n..] else path;
    if local == "" then "/" else local
  }

  method GetMountpoint(path: Text, names: seq<Text>) returns (guess: Option<nat>, local: Text)
    ensures guess.None? <==> forall k :: 0 <= k < |names| && names[k] != "" ==> !Mounted(path, names[k])
    ensures guess.Some? ==>
      && guess.value < |names| && names[guess.value] != "" && Mounted(path, names[guess.value])
      && (forall k :: 0 <= k < |names| && Mounted(path, names[k]) ==> |names[k]| <= |names[guess.value]|)
      && local == LocalPath(path, |names[guess.value]|)
  {
    guess := None;
    var size := 0;
    for i := 0 to |names|
      invariant guess.None? ==> size == 0
      invariant guess.Some? ==> guess.value < i && size == |names[guess.value]| > 0 && Mounted(path, names[guess.value])
      invariant forall k :: 0 <= k < i && Mounted(path, names[k]) ==> |names[k]| <= size
    {
      if Mounted(path, names[i]) && |names[i]| > size {
        guess, size := Some(i), |names[i]|;
      }
    }
    local := LocalPath(path, size);
  }

  ghost predicate Boundary(rest: Text) { rest == "" || rest[0] == '/' }

  /** Texts that start with a component each agree on it if they are equal. */
  lemma SameFirst(a: Text, x: Text, b: Text, y: Text)
    requires '/' !in a && '/' !in b && Boundary(x) && Boundary(y) && a + x == b + y
    ensures a == b && x == y
  {
    hide Components;
    FirstComponent(a, x);
    FirstComponent(b, y);
    assert a == (a + x)[..|a|] && x == (a + x)[|a|..];
  }

  lemma {:induction false} SlashedPrefix(m: seq<Text>, p: seq<Text>, rest: Text)
    requires AllPlain(m) && AllPlain(p) && Boundary(rest)
    requires Slashed(m) + rest == Slashed(p)
    ensures m <= p && rest == Slashed(p[|m|..])
  {
    if m != [] {
      assert p != [];
      assert Plain(m[0]) && Plain(p[0]);
      var x, y := Slashed(m[1..]) + rest, Slashed(p[1..]);
      assert m[0] + x == (Slashed(m) + rest)[1..];
      assert p[0] + y == Slashed(p)[1..];
      SameFirst(m[0], x, p[0], y);
      SlashedPrefix(m[1..], p[1..], rest);
      assert p[1..][|m| - 1..] == p[|m|..];
    } else {
      assert Slashed(m) + rest == rest;
    }
  }

  /**
    * On normalised names a mount point is found exactly when its directories lead
    * the path's, and the local path names the directories that remain.
    */
  lemma MountedExactly(path: Text, name: Text)
    requires Normalised(path) && Normalised(name) && '\0' !in path
    ensures Mounted(path, name) <==> Parts(name) <= Parts(path)
    ensures Mounted(path, name) ==> LocalPath(path, |name|) == Join(Parts(path)[|Parts(name)|..])
  {
    hide Components, Normalised;
    var m, p := Parts(name), Parts(path);
    NormalisedIsJoin(path);
    NormalisedIsJoin(name);
    JoinLength(m);
    JoinLength(p);
    if m == [] {
      assert p[0..] == p;
    } else {
      ComponentsOfSlashed(m);
      if Mounted(path, name) {
        var rest := path[|name|..];
        assert path == name + rest;
        assert rest != "" ==> rest[0] == path[|name|] && path[|name|] in path;
        SlashedPrefix(m, p, rest);
      }
      if m <= p {
        assert p == m + p[|m|..];
        SlashedConcat(m, p[|m|..]);
        MountedUnder(path, name, p[|m|..]);
      }
    }
  }

  lemma MountedUnder(path: Text, name: Text, below: seq<Text>)
    requires path == name + Slashed(below) && |name| > 1
    ensures Mounted(path, name) && LocalPath(path, |name|) == Join(below)
  {
    assert path[|name|..] == Slashed(below);
  }
}

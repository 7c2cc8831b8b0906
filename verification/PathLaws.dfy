/**
  * What path normalisation means to a caller: a walk through directories, one
  * part of the path after the other.
  */
module PathLaws {
  import opened Paths

  lemma {:induction false} ComponentsOfBoth(a: Text, b: Text)
    ensures Components(a + ['/'] + b) == Components(a) + Components(b)
    decreases |a|
  {
    hide Components;
    var j := SegEnd(a);
    var rest := a[j..] + ['/'] + b;
    CutBehind(a, b, j);
    FirstComponent(a[..j], a[j..]);
    FirstComponent(a[..j], rest);
    if j < |a| {
      ComponentsOfBoth(a[j + 1..], b);
    }
  }

  lemma CutBehind(a: Text, b: Text, j: nat)
    requires j <= |a|
    ensures a == a[..j] + a[j..] && a + ['/'] + b == a[..j] + (a[j..] + ['/'] + b)
    ensures j == |a| ==> (a[j..] + ['/'] + b)[1..] == b
    ensures j < |a| ==> (a[j..] + ['/'] + b)[1..] == a[j + 1..] + ['/'] + b && a[j..][1..] == a[j + 1..]
  { }

  lemma {:induction false} ResolveBoth(cs: seq<Text>, ds: seq<Text>, stack: seq<Text>)
    ensures Resolve(cs + ds, stack) == Resolve(ds, Resolve(cs, stack))
    decreases |cs|
  {
    if cs == [] {
      assert cs + ds == ds;
    } else {
      assert (cs + ds)[1..] == cs[1..] + ds;
      ResolveBoth(cs[1..], ds, ResolveOne(stack, cs[0]));
    }
  }

  lemma ResolveSingle(c: Text, stack: seq<Text>)
    ensures Resolve([c], stack) == ResolveOne(stack, c)
  {
    assert [c][1..] == [];
  }

  lemma OnePart(c: Text)
    requires '/' !in c
    ensures Components(c) == [c]
  {
    FirstComponent(c, "");
    assert c + "" == c;
  }

  /** Directories the path passes on its way. */
  lemma WalkPlain(a: Text, base: seq<Text>)
    requires AllPlain(base)
    ensures AllPlain(Resolve(Components(a), base))
  {
    ComponentsHaveNoSlash(a);
    ResolvePlain(Components(a), base);
  }

  /** A path is walked in order: the part behind a slash starts where the part before it ended. */
  lemma WalkInOrder(a: Text, b: Text, pwd: Text)
    requires Normalised(pwd) && a != "" && (b == "" || b[0] != '/')
    ensures Absolute(a + "/" + b, pwd) == Absolute(b, Absolute(a, pwd))
  {
    hide Resolve, Components, Join, Parts, Slashed, SegEnd;
    NormalisedIsJoin(pwd);
    var base := if a[0] == '/' then [] else Parts(pwd);
    ComponentsOfBoth(a, b);
    ResolveBoth(Components(a), Components(b), base);
    WalkPlain(a, base);
    JoinIsNormalised(Resolve(Components(a), base));
    assert (a + "/" + b)[0] == a[0];
    if b == "" {
      OnePart("");
      ResolveSingle("", Resolve(Components(a), base));
    }
  }

  /** A slash at the front starts at the root, wherever the caller is; more slashes are as good as one. */
  lemma FromRoot(b: Text, pwd: Text)
    requires b == "" || b[0] != '/'
    ensures Absolute("/" + b, pwd) == Absolute(b, "/")
    ensures Absolute("//" + b, pwd) == Absolute("/" + b, pwd)
  {
    hide Resolve, Join, Slashed, SegEnd, Components;
    OnePart("");
    ComponentsOfBoth("", b);
    ComponentsOfBoth("/", b);
    ComponentsOfBoth("", "");
    assert "" + ['/'] + b == "/" + b && "/" + ['/'] + b == "//" + b && "" + ['/'] + "" == "/";
    ResolveBoth([""], Components(b), []);
    ResolveBoth(["", ""], Components(b), []);
    ResolveBoth([""], [""], []);
    assert [""] + [""] == ["", ""];
    ResolveSingle("", []);
    if b == "" {
      RootName();
    }
  }

  lemma RootName()
    ensures Join([]) == "/" && Parts("/") == [] && Normalised("/")
  { }

  /** A name goes down into that directory, from the root or from any other. */
  lemma NameGoesDown(c: Text, pwd: Text)
    requires Normalised(pwd) && c != "" && c != "." && c != ".." && '/' !in c
    ensures Absolute(c, pwd) == if pwd == "/" then "/" + c else pwd + "/" + c
  {
    hide Resolve, Components, SegEnd;
    NormalisedIsJoin(pwd);
    OnePart(c);
    ResolveSingle(c, Parts(pwd));
    SlashedSnoc(Parts(pwd), c);
    if Parts(pwd) == [] {
      SlashedNone();
    }
  }

  /** The empty path and a dot stay where they are. */
  lemma DotStays(pwd: Text)
    requires Normalised(pwd)
    ensures Absolute("", pwd) == pwd && Absolute(".", pwd) == pwd
  {
    hide Resolve, Components, SegEnd;
    NormalisedIsJoin(pwd);
    OnePart(".");
    ResolveSingle(".", Parts(pwd));
  }

  /** Two dots go back up to where a name went down from, and from the root nowhere. */
  lemma DotsGoUp(c: Text, pwd: Text)
    requires Normalised(pwd) && c != "" && c != "." && c != ".." && '/' !in c
    ensures Absolute("..", Absolute(c, pwd)) == pwd && Absolute("..", "/") == "/"
  {
    hide Resolve, Components, SegEnd, Slashed;
    NormalisedIsJoin(pwd);
    OnePart(c);
    OnePart("..");
    ResolveSingle(c, Parts(pwd));
    var down := Parts(pwd) + [c];
    JoinIsNormalised(down);
    ResolveSingle("..", down);
    assert down[..|down| - 1] == Parts(pwd);
    RootName();
    ResolveSingle("..", []);
  }

  /** The mount point and the local path together are the path. */
  lemma MountAndLocal(path: Text, name: Text)
    requires name != "" && name <= path && Mounted(path, name)
    ensures |name| == 1 ==> LocalPath(path, |name|) == path
    ensures |name| > 1 && path == name ==> LocalPath(path, |name|) == "/"
    ensures |name| > 1 && path != name ==> name + LocalPath(path, |name|) == path
  {
    assert path == name + path[|name|..];
  }
}
